/** EliMAC (src/elimac.c): pad the message, fold every padded block but the
    last with Elihash under key1, XOR in the last block as it is, encrypt
    the result with 10-round AES under key2 and keep the first t/8 bytes. */
module Elimac {
  import opened Blocks
  import opened Aes
  import opened Mem
  import opened Utils
  import opened Elihash
  import opened Wrappers

  /** The number of padded blocks of a message of `len` bytes. */
  function NumBlocks(len: nat): (n: nat)
    ensures 1 <= n && 16 * n == PaddedLength(len)
  {
    len / 16 + 1
  }

  /** The state elimac encrypts, for a padded buffer of n blocks and the
      7- and 4-round schedules rk7 and rk4: the Elihash of blocks 0 .. n-2,
      XOR block n-1. */
  function FinalState(rk7: seq<bv8>, rk4: seq<bv8>, p: seq<bv8>, n: nat, variant: int): Block
    requires |rk7| == 16 * 8 && |rk4| == 16 * 5
    requires 1 <= n <= MAX_BLOCKS && 16 * n <= |p| && (2 <= n ==> ValidVariant(variant))
  {
    Xor(Hasher(rk7, rk4, None, variant).Fold(p, n - 1), BlockAt(p, n - 1))
  }

  /** The untruncated tag of a padded buffer of n blocks: the final state
      under key1's schedules, encrypted with 10-round AES under key2. */
  function TagBlock(k1: Block, k2: Block, p: seq<bv8>, n: nat, variant: int): Block
    requires 1 <= n <= MAX_BLOCKS && 16 * n <= |p| && (2 <= n ==> ValidVariant(variant))
  {
    Encrypt(FinalState(KeyExpansion(k1, 7), KeyExpansion(k1, 4), p, n, variant), KeyExpansion(k2, 10), 10)
  }

  /** The 128-bit tag of message m. */
  function FullTag(k1: Block, k2: Block, m: seq<bv8>, variant: int): Block
    requires NumBlocks(|m|) <= MAX_BLOCKS && (2 <= NumBlocks(|m|) ==> ValidVariant(variant))
  {
    TagBlock(k1, k2, Pad(m), NumBlocks(|m|), variant)
  }

  /** The tag of t bits elimac writes: the first t/8 bytes of the full tag
      (a t that is not a multiple of 8 rounds down to whole bytes). */
  function Tag(k1: Block, k2: Block, m: seq<bv8>, t: int, variant: int): (tag: seq<bv8>)
    requires 0 <= t <= 128 && NumBlocks(|m|) <= MAX_BLOCKS && (2 <= NumBlocks(|m|) ==> ValidVariant(variant))
    ensures |tag| == t / 8
  {
    FullTag(k1, k2, m, variant)[..t / 8]
  }

  // ---------------------------------------------------------------------
  // Properties of the tag
  // ---------------------------------------------------------------------

  /** A shorter tag is a prefix of a longer one for the same inputs, and
      the 128-bit tag is the whole full tag. */
  lemma TagTruncation(k1: Block, k2: Block, m: seq<bv8>, t: int, t': int, variant: int)
    requires 0 <= t <= t' <= 128 && NumBlocks(|m|) <= MAX_BLOCKS && (2 <= NumBlocks(|m|) ==> ValidVariant(variant))
    ensures Tag(k1, k2, m, t, variant) == Tag(k1, k2, m, t', variant)[..t / 8]
    ensures Tag(k1, k2, m, 128, variant) == FullTag(k1, k2, m, variant)
  {
  }

  /** A message shorter than a block pads to a single block, Elihash does
      no iteration, and the tag is 10-round AES of the padded block under
      key2 alone: key1 and the counter variant play no part. */
  lemma SingleBlockTag(k1: Block, k2: Block, m: seq<bv8>, t: int, variant: int)
    requires 0 <= t <= 128 && |m| < BLOCK_SIZE
    ensures NumBlocks(|m|) == 1
    ensures Tag(k1, k2, m, t, variant) == Encrypt(Pad(m), KeyExpansion(k2, 10), 10)[..t / 8]
  {
    var p := Pad(m);
    var h := Hasher(KeyExpansion(k1, 7), KeyExpansion(k1, 4), None, variant);
    assert h.Fold(p, 0) == Zero();
    assert BlockAt(p, 0) == p;
    XorZero(p);
  }

  /** The empty message: the tag is 10-round AES under key2 of 0x80
      followed by 15 zero bytes. */
  lemma EmptyMessageTag(k1: Block, k2: Block, t: int, variant: int)
    requires 0 <= t <= 128
    ensures Tag(k1, k2, [], t, variant) ==
      Encrypt([0x80, 0, 0, 0, 0, 0, 0, 0, 0, 0, 0, 0, 0, 0, 0, 0], KeyExpansion(k2, 10), 10)[..t / 8]
  {
    SingleBlockTag(k1, k2, [], t, variant);
    PadLayout([]);
  }

  // ---------------------------------------------------------------------
  // The C function
  // ---------------------------------------------------------------------

  /** The three aes_key_schedule calls of elimac, into stack buffers of
      exactly 16 (rounds + 1) bytes: 7 and 4 rounds from key1, 10 rounds
      from key2. */
  method Schedules(key1: array<bv8>, key2: array<bv8>) returns (rk7: array<bv8>, rk4: array<bv8>, rk10: array<bv8>)
    requires KEY_SIZE <= key1.Length && KEY_SIZE <= key2.Length
    ensures fresh(rk7) && fresh(rk4) && fresh(rk10)
    ensures rk7[..] == KeyExpansion(key1[..16], 7)
    ensures rk4[..] == KeyExpansion(key1[..16], 4)
    ensures rk10[..] == KeyExpansion(key2[..16], 10)
  {
    rk7 := new bv8[16 * 8];
    rk4 := new bv8[16 * 5];
    rk10 := new bv8[16 * 11];
    var _ := AesKeySchedule(key1, rk7, 7);
    var _ := AesKeySchedule(key1, rk4, 4);
    var _ := AesKeySchedule(key2, rk10, 10);
    assert rk7[..] == rk7[..16 * 8];
    assert rk4[..] == rk4[..16 * 5];
    assert rk10[..] == rk10[..16 * 11];
  }

  /** The optional subkey table: built for counters 1 .. max_blocks when
      `precompute` is set and max_blocks > 0, none (NULL) otherwise. */
  method BuildTable(precompute: bool, maxBlocks: nat, rk7: array<bv8>, variant: int) returns (subkeys: array?<bv8>)
    requires 16 * 8 <= rk7.Length
    requires precompute && maxBlocks > 0 ==> maxBlocks < MAX_COUNTER && ValidVariant(variant)
    ensures subkeys != null <==> precompute && maxBlocks > 0
    ensures subkeys != null ==> fresh(subkeys) && subkeys[..] == SubkeyTable(rk7[..], variant, maxBlocks)
  {
    subkeys := null;
    if precompute && maxBlocks > 0 {
      subkeys := new bv8[16 * maxBlocks];
      PrecomputeSubkeys(subkeys, maxBlocks, rk7, variant);
      assert subkeys[..] == subkeys[..16 * maxBlocks];
    }
  }

  /** The state of elimac before the final encryption: the elihash fold
      over blocks 0 .. n-2, then the last block XOR-ed in. */
  method Digest(numBlocks: nat, rk7: array<bv8>, precompute: bool, maxBlocks: nat,
                padded: array<bv8>, rk4: array<bv8>, parallel: bool, variant: int)
      returns (state: array<bv8>)
    requires 1 <= numBlocks <= MAX_BLOCKS && 16 * numBlocks == padded.Length
    requires 2 <= numBlocks || (precompute && maxBlocks > 0) ==> ValidVariant(variant)
    requires rk7.Length == 16 * 8 && rk4.Length == 16 * 5
    requires precompute && maxBlocks > 0 ==> numBlocks - 1 <= maxBlocks < MAX_COUNTER
    ensures fresh(state) && state.Length == BLOCK_SIZE
    ensures state[..] == FinalState(rk7[..], rk4[..], padded[..], numBlocks, variant)
  {
    state := FoldState(numBlocks, rk7, precompute, maxBlocks, padded, rk4, parallel, variant);
    LastBlock(state, padded, numBlocks);
  }

  /** The subkey table, the zeroed state and the elihash call of elimac:
      the state then holds the fold of blocks 0 .. n-2. */
  method FoldState(numBlocks: nat, rk7: array<bv8>, precompute: bool, maxBlocks: nat,
                   padded: array<bv8>, rk4: array<bv8>, parallel: bool, variant: int)
      returns (state: array<bv8>)
    requires 1 <= numBlocks <= MAX_BLOCKS && 16 * numBlocks == padded.Length
    requires 2 <= numBlocks || (precompute && maxBlocks > 0) ==> ValidVariant(variant)
    requires rk7.Length == 16 * 8 && rk4.Length == 16 * 5
    requires precompute && maxBlocks > 0 ==> numBlocks - 1 <= maxBlocks < MAX_COUNTER
    ensures fresh(state) && state.Length == BLOCK_SIZE
    ensures state[..] == Hasher(rk7[..], rk4[..], None, variant).Fold(padded[..], numBlocks - 1)
  {
    var subkeys := BuildTable(precompute, maxBlocks, rk7, variant);
    state := new bv8[BLOCK_SIZE](_ => 0);
    assert state[..] == Zero();
    HashState(state, numBlocks, rk7, subkeys, precompute, maxBlocks, padded, rk4, parallel, variant);
    XorZero(Hasher(rk7[..], rk4[..], None, variant).Fold(padded[..], numBlocks - 1));
  }

  /** The last-block loop of elimac: S = S XOR M_n. */
  method LastBlock(state: array<bv8>, padded: array<bv8>, numBlocks: nat)
    requires state.Length == BLOCK_SIZE && 1 <= numBlocks && 16 * numBlocks == padded.Length && state != padded
    modifies state
    ensures state[..] == Xor(old(state[..]), BlockAt(padded[..], numBlocks - 1))
  {
    XorBlockInto(state, padded, 16 * (numBlocks - 1));
  }

  /** The elihash call of elimac. Whether hash_h reads the table or not,
      the state it leaves is the one of on-the-fly subkeys
      (CacheEquivalence). */
  method HashState(state: array<bv8>, numBlocks: nat, rk7: array<bv8>, subkeys: array?<bv8>, precompute: bool,
                   maxBlocks: nat, padded: array<bv8>, rk4: array<bv8>, parallel: bool, variant: int)
    requires state.Length == BLOCK_SIZE && 1 <= numBlocks <= MAX_BLOCKS && 16 * numBlocks == padded.Length
    requires rk7.Length == 16 * 8 && rk4.Length == 16 * 5 && (2 <= numBlocks ==> ValidVariant(variant))
    requires subkeys != null ==>
      ValidVariant(variant) && numBlocks - 1 <= maxBlocks < MAX_COUNTER && subkeys[..] == SubkeyTable(rk7[..], variant, maxBlocks)
    requires state != padded && state != rk7 && state != rk4 && state != subkeys
    modifies state
    ensures state[..] == Xor(old(state[..]), Hasher(rk7[..], rk4[..], None, variant).Fold(padded[..], numBlocks - 1))
  {
    ghost var h := Hasher(rk7[..], rk4[..], TableOf(precompute, subkeys), variant);
    Elihash.Elihash(state, numBlocks, rk7, subkeys, precompute, padded, rk4, parallel, variant);
    if precompute && subkeys != null {
      CacheEquivalence(h, padded[..], numBlocks - 1, maxBlocks);
    }
  }

  /** Everything elimac computes after the length checks: the schedules,
      the optional table, the state and its 10-round encryption. */
  method TagOf(key1: array<bv8>, key2: array<bv8>, padded: array<bv8>, numBlocks: nat,
               precompute: bool, maxBlocks: nat, parallel: bool, variant: int) returns (final: array<bv8>)
    requires KEY_SIZE <= key1.Length && KEY_SIZE <= key2.Length
    requires 1 <= numBlocks <= MAX_BLOCKS && 16 * numBlocks == padded.Length
    requires 2 <= numBlocks || (precompute && maxBlocks > 0) ==> ValidVariant(variant)
    requires precompute && maxBlocks > 0 ==> numBlocks - 1 <= maxBlocks < MAX_COUNTER
    ensures fresh(final) && final.Length == BLOCK_SIZE
    ensures final[..] == TagBlock(key1[..16], key2[..16], padded[..], numBlocks, variant)
  {
    ghost var k1, k2, p := key1[..16], key2[..16], padded[..];
    var rk7, rk4, rk10 := Schedules(key1, key2);
    var state := Digest(numBlocks, rk7, precompute, maxBlocks, padded, rk4, parallel, variant);
    final := FinishTag(state, rk10);
    assert key1[..16] == k1 && key2[..16] == k2 && padded[..] == p;
  }

  /** The last aes_encrypt of elimac: the state under 10-round AES, into
      a fresh buffer. */
  method FinishTag(state: array<bv8>, rk10: array<bv8>) returns (final: array<bv8>)
    requires state.Length == BLOCK_SIZE && rk10.Length == 16 * 11
    ensures fresh(final) && final.Length == BLOCK_SIZE
    ensures final[..] == Encrypt(state[..], rk10[..], 10)
  {
    final := new bv8[BLOCK_SIZE];
    AesEncrypt(state, rk10, final, 0, 10);
    assert state[..16] == state[..];
    assert final[..] == final[0 .. 16];
  }

  /** elimac: -1 with `tag` untouched when t is outside [0, 128] or the
      padded message has more than MAX_BLOCKS blocks; otherwise the first
      t/8 bytes of `tag` receive the first t/8 bytes of the tag, the rest
      of `tag` is untouched, and 0 is returned. The tag does not depend on
      `parallel`; with the table at the corrected offsets 16(c-1) (see
      Elihash.OffsetWraps for the 32-bit offsets of the C code), it does
      not depend on `precompute` and `max_blocks` either. The counter
      variant must be valid only when a counter is encoded: when the
      message has two blocks or more, or a table is built. */
  method Elimac(key1: array<bv8>, key2: array<bv8>, message: array<bv8>, len: nat, tag: array<bv8>, t: int,
                precompute: bool, maxBlocks: nat, parallel: bool, variant: int) returns (rc: int)
    requires len <= message.Length && KEY_SIZE <= key1.Length && KEY_SIZE <= key2.Length
    requires 0 <= t <= 128 && NumBlocks(len) <= MAX_BLOCKS ==> t / 8 <= tag.Length
    requires 0 <= t <= 128 && NumBlocks(len) <= MAX_BLOCKS && (2 <= NumBlocks(len) || (precompute && maxBlocks > 0)) ==>
      ValidVariant(variant)
    requires 0 <= t <= 128 && NumBlocks(len) <= MAX_BLOCKS && precompute && maxBlocks > 0 ==>
      NumBlocks(len) - 1 <= maxBlocks < MAX_COUNTER
    modifies tag
    ensures rc == (if 0 <= t <= 128 && NumBlocks(len) <= MAX_BLOCKS then 0 else -1)
    ensures rc == -1 ==> tag[..] == old(tag[..])
    ensures rc == 0 ==> tag[..t / 8] == Tag(old(key1[..16]), old(key2[..16]), old(message[..len]), t, variant)
    ensures rc == 0 ==> tag[t / 8..] == old(tag[t / 8..])
  {
    if t > 128 || t < 0 {
      return -1;
    }
    ghost var k1, k2, m := key1[..16], key2[..16], message[..len];
    var _, padded, paddedLen := PadMessage(message, len);
    var numBlocks := paddedLen / 16;
    assert numBlocks == NumBlocks(len);
    if numBlocks > MAX_BLOCKS {
      return -1;
    }
    var final := TagOf(key1, key2, padded, numBlocks, precompute, maxBlocks, parallel, variant);
    CopyTag(tag, final, t / 8);
    return 0;
  }

  /** memcpy(tag, final, n): the first n bytes of `tag` become those of
      `final`, the rest of `tag` is kept. */
  method CopyTag(tag: array<bv8>, final: array<bv8>, n: nat)
    requires n <= tag.Length && n <= final.Length
    modifies tag
    ensures tag[..n] == old(final[..n])
    ensures tag[n..] == old(tag[n..])
  {
    MemCpy(tag, 0, final[..n]);
    assert tag[..n] == old(final[..n]);
  }
}
