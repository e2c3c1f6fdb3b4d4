/** Elihash (src/elihash.c): the per-counter subkeys h(c) = AES-7(encode(c)),
    the per-block compression i(h, m) = AES-4(h XOR m), the XOR fold of
    i(h(j + 1), M_j) over every padded block but the last, and the
    subkey table that caches h. */
module Elihash {
  import opened Blocks
  import opened Aes
  import opened Wrappers
  import opened Mem
  import opened Utils

  /** The largest value of the uint32_t counter. */
  const MAX_COUNTER: nat := 0xFFFF_FFFF

  /** h(c): the 7-round AES of the encoded counter. */
  function H(rk7: seq<bv8>, c: nat, variant: int): Block
    requires 16 * 8 <= |rk7| && 1 <= c <= MAX_COUNTER && ValidVariant(variant)
  {
    Encrypt(CounterBlock(c as bv32, variant), rk7, 7)
  }

  /** i(h, m): the 4-round AES of h XOR m. */
  function I(rk4: seq<bv8>, h: Block, m: Block): Block
    requires 16 * 5 <= |rk4|
  {
    Encrypt(Xor(h, m), rk4, 4)
  }

  /** What an Elihash computation depends on: the 7- and 4-round
      schedules, the subkey table when hash_h reads one, and the counter
      encoding variant. */
  datatype Hasher = Hasher(rk7: seq<bv8>, rk4: seq<bv8>, table: Option<seq<bv8>>, variant: int)
  {
    /** Schedules long enough, a valid variant when at least one counter
        is hashed, counters up to n fitting in 32 bits, and a table (when
        present) holding n entries. */
    predicate Valid(n: nat) {
      16 * 8 <= |rk7| && 16 * 5 <= |rk4| && (n > 0 ==> ValidVariant(variant)) && n <= MAX_COUNTER &&
      (table.Some? ==> 16 * n <= |table.value|)
    }

    /** hash_h: entry c - 1 of the table when there is one, otherwise
        h(c) computed on the fly. */
    function HValue(c: nat): Block
      requires 1 <= c && Valid(c)
    {
      if table.Some? then table.value[16 * (c - 1) .. 16 * c] else H(rk7, c, variant)
    }

    /** The contribution of block j (0-based), hashed with counter j + 1. */
    function Term(padded: seq<bv8>, j: nat): Block
      requires Valid(j + 1) && 16 * (j + 1) <= |padded|
    {
      I(rk4, HValue(j + 1), BlockAt(padded, j))
    }

    /** The contributions of blocks 0 .. n-1. */
    function Terms(padded: seq<bv8>, n: nat): (ts: seq<Block>)
      requires Valid(n) && 16 * n <= |padded|
      ensures |ts| == n
    {
      seq(n, j requires 0 <= j < n => Term(padded, j))
    }

    /** The elihash accumulator over blocks 0 .. n-1: their contributions
        XOR-ed in increasing order into the zero block. */
    function Fold(padded: seq<bv8>, n: nat): Block
      requires Valid(n) && 16 * n <= |padded|
    {
      XorRange(Terms(padded, n), 0, n)
    }
  }

  // ---------------------------------------------------------------------
  // Properties of the fold
  // ---------------------------------------------------------------------

  /** One more block XORs one more contribution into the accumulator. */
  lemma FoldStep(h: Hasher, padded: seq<bv8>, n: nat)
    requires h.Valid(n + 1) && 16 * (n + 1) <= |padded|
    ensures h.Fold(padded, n + 1) == Xor(h.Fold(padded, n), h.Term(padded, n))
  {
    XorRangeLocal(h.Terms(padded, n), h.Terms(padded, n + 1), 0, n);
  }

  /** The accumulator over the first n blocks reads nothing of the padded
      message beyond those blocks: in particular elihash, which folds
      num_blocks - 1 blocks, never reads the last one. */
  lemma FoldIgnoresLaterBlocks(h: Hasher, p: seq<bv8>, p': seq<bv8>, n: nat)
    requires h.Valid(n) && 16 * n <= |p| && 16 * n <= |p'| && p[..16 * n] == p'[..16 * n]
    ensures h.Fold(p, n) == h.Fold(p', n)
  {
    forall j | 0 <= j < n
      ensures BlockAt(p, j) == BlockAt(p', j)
    {
      assert BlockAt(p, j) == p[..16 * n][16 * j .. 16 * (j + 1)];
      assert BlockAt(p', j) == p'[..16 * n][16 * j .. 16 * (j + 1)];
    }
    assert h.Terms(p, n) == h.Terms(p', n);
  }

  /** Cut points in non-decreasing order. */
  predicate Ordered(cuts: seq<nat>) {
    forall a, b :: 0 <= a <= b < |cuts| ==> cuts[a] <= cuts[b]
  }

  /** The XORs of the contiguous chunks [cuts[k], cuts[k+1]) of `parts`. */
  function Chunks(parts: seq<Block>, cuts: seq<nat>): (cs: seq<Block>)
    requires |cuts| >= 1 && Ordered(cuts) && cuts[|cuts| - 1] <= |parts|
    ensures |cs| == |cuts| - 1
    decreases |cuts|
  {
    if |cuts| == 1 then []
    else Chunks(parts, cuts[..|cuts| - 1]) + [XorRange(parts, cuts[|cuts| - 2], cuts[|cuts| - 1])]
  }

  /** The chunk XORs XOR together to the XOR of the whole range. */
  lemma {:induction false} ChunksCover(parts: seq<Block>, cuts: seq<nat>)
    requires |cuts| >= 1 && Ordered(cuts) && cuts[|cuts| - 1] <= |parts|
    ensures XorAll(Chunks(parts, cuts)) == XorRange(parts, cuts[0], cuts[|cuts| - 1])
    decreases |cuts|
  {
    var last := |cuts| - 1;
    if last > 0 {
      var front := cuts[..last];
      ChunksCover(parts, front);
      var tail := XorRange(parts, cuts[last - 1], cuts[last]);
      XorAllConcat(Chunks(parts, front), [tail]);
      XorZero(tail);
      XorRangeSplit(parts, cuts[0], cuts[last - 1], cuts[last]);
    }
  }

  /** Merging partial states into `state` one after another, as the
      critical section of the parallel branch does. */
  function Merge(state: Block, parts: seq<Block>): Block
    decreases |parts|
  {
    if parts == [] then state else Xor(Merge(state, parts[..|parts| - 1]), parts[|parts| - 1])
  }

  /** Merging XORs the state with the XOR of all parts. */
  lemma {:induction false} MergeIsXorAll(state: Block, parts: seq<Block>)
    ensures Merge(state, parts) == Xor(state, XorAll(parts))
    decreases |parts|
  {
    if parts == [] {
      XorZero(state);
    } else {
      var front, last := parts[..|parts| - 1], parts[|parts| - 1];
      MergeIsXorAll(state, front);
      assert parts == front + [last];
      XorAllConcat(front, [last]);
      XorZero(last);
      XorAssoc(state, XorAll(front), last);
    }
  }

  /** The parallel branch of elihash: the iterations 0 .. n-1 are cut into
      contiguous chunks, each thread folds its chunk into a private zero
      state, and the private states are merged into `state` in whatever
      order the threads reach the critical section. The result is the
      state of the sequential loop. */
  lemma ParallelMatchesSequential(h: Hasher, padded: seq<bv8>, n: nat, cuts: seq<nat>, merged: seq<Block>, state: Block)
    requires h.Valid(n) && 16 * n <= |padded|
    requires |cuts| >= 1 && cuts[0] == 0 && cuts[|cuts| - 1] == n && Ordered(cuts)
    requires multiset(merged) == multiset(Chunks(h.Terms(padded, n), cuts))
    ensures Merge(state, merged) == Xor(state, h.Fold(padded, n))
  {
    MergeIsXorAll(state, merged);
    XorAllPermutation(merged, Chunks(h.Terms(padded, n), cuts));
    ChunksCover(h.Terms(padded, n), cuts);
  }

  // ---------------------------------------------------------------------
  // The subkey table
  // ---------------------------------------------------------------------

  /** h(1) .. h(n). */
  function Subkeys(rk7: seq<bv8>, variant: int, n: nat): (bs: seq<Block>)
    requires 16 * 8 <= |rk7| && ValidVariant(variant) && n <= MAX_COUNTER
    ensures |bs| == n
  {
    seq(n, k requires 0 <= k < n => H(rk7, k + 1, variant))
  }

  /** The table precompute_subkeys builds for counters 1 .. n: h(1) .. h(n)
      laid end to end. */
  function SubkeyTable(rk7: seq<bv8>, variant: int, n: nat): (t: seq<bv8>)
    requires 16 * 8 <= |rk7| && ValidVariant(variant) && n <= MAX_COUNTER
    ensures |t| == 16 * n
  {
    Flatten(Subkeys(rk7, variant, n))
  }

  /** Entry c - 1 of the table for n counters is h(c), for 1 <= c <= n. */
  lemma SubkeyTableEntry(rk7: seq<bv8>, variant: int, n: nat, c: nat)
    requires 16 * 8 <= |rk7| && ValidVariant(variant) && 1 <= c <= n <= MAX_COUNTER
    ensures SubkeyTable(rk7, variant, n)[16 * (c - 1) .. 16 * c] == H(rk7, c, variant)
  {
    var bs, k := Subkeys(rk7, variant, n), c - 1;
    FlattenEntry(bs, k);
    assert 16 * (c - 1) == 16 * k && 16 * c == 16 * k + 16;
    assert bs[k] == H(rk7, c, variant);
  }

  /** Reading h from a table built by precompute_subkeys for at least n
      counters gives the same accumulator as computing h on the fly. */
  lemma CacheEquivalence(h: Hasher, padded: seq<bv8>, n: nat, maxBlocks: nat)
    requires h.Valid(n) && 16 * n <= |padded| && n <= maxBlocks <= MAX_COUNTER && ValidVariant(h.variant)
    requires h.table == Some(SubkeyTable(h.rk7, h.variant, maxBlocks))
    ensures h.Fold(padded, n) == h.(table := None).Fold(padded, n)
  {
    forall c | 1 <= c <= n
      ensures h.HValue(c) == h.(table := None).HValue(c)
    {
      SubkeyTableEntry(h.rk7, h.variant, maxBlocks, c);
    }
    assert h.Terms(padded, n) == h.(table := None).Terms(padded, n);
  }

  // ---------------------------------------------------------------------
  // The C functions
  // ---------------------------------------------------------------------

  /** hash_h: with `precompute` set and a table present, copies table entry
      counter - 1; otherwise, including with `precompute` set and no table,
      encodes the counter and encrypts it with 7-round AES. */
  method HashH(counter: U32, output: array<bv8>, roundKeys: array<bv8>, subkeys: array?<bv8>, precompute: bool, variant: int)
    requires output.Length == BLOCK_SIZE && 16 * 8 <= roundKeys.Length
    requires 1 <= counter && (!(precompute && subkeys != null) ==> ValidVariant(variant))
    requires precompute && subkeys != null ==> 16 * counter <= subkeys.Length
    modifies output
    ensures precompute && subkeys != null ==> output[..] == old(subkeys[16 * (counter - 1) .. 16 * counter])
    ensures !(precompute && subkeys != null) ==> output[..] == H(old(roundKeys[..]), counter, variant)
  {
    if precompute && subkeys != null {
      MemCpy(output, 0, subkeys[16 * (counter - 1) .. 16 * counter]);
      assert output[..] == output[0 .. 16];
    } else {
      var counterBytes := new bv8[BLOCK_SIZE];
      var _ := EncodeCounter(counter as bv32, counterBytes, variant);
      ghost var rk, block := roundKeys[..], counterBytes[..16];
      assert block == CounterBlock(counter as bv32, variant) && rk == old(roundKeys[..]);
      AesEncrypt(counterBytes, roundKeys, output, 0, 7);
      assert output[..] == output[0 .. 16] == Encrypt(block, rk, 7);
    }
  }

  /** hash_i: XORs h and the message block at `at` into a local input
      buffer and encrypts it with 4-round AES into `output`. */
  method HashI(hOutput: array<bv8>, message: array<bv8>, at: nat, output: array<bv8>, roundKeys: array<bv8>)
    requires hOutput.Length == BLOCK_SIZE && at + BLOCK_SIZE <= message.Length
    requires output.Length == BLOCK_SIZE && 16 * 5 <= roundKeys.Length
    modifies output
    ensures output[..] == I(old(roundKeys[..]), old(hOutput[..]), old(message[at .. at + 16]))
  {
    ghost var x := Xor(hOutput[..], message[at .. at + 16]);
    var input := new bv8[BLOCK_SIZE];
    for i := 0 to BLOCK_SIZE
      modifies input
      invariant forall k :: 0 <= k < i ==> input[k] == x[k]
    {
      input[i] := hOutput[i] ^ message[at + i];
    }
    ghost var rk := roundKeys[..];
    assert input[..16] == x;
    AesEncrypt(input, roundKeys, output, 0, 4);
    assert output[..] == output[0 .. 16] == Encrypt(x, rk, 4);
  }

  /** The byte loop `state[j] ^= src[at + j]` for j in 0 .. 15. */
  method XorBlockInto(state: array<bv8>, src: array<bv8>, at: nat)
    requires state.Length == BLOCK_SIZE && at + BLOCK_SIZE <= src.Length && state != src
    modifies state
    ensures state[..] == Xor(old(state[..]), src[at .. at + 16])
  {
    ghost var want := Xor(state[..], src[at .. at + 16]);
    for j := 0 to BLOCK_SIZE
      invariant forall k :: 0 <= k < j ==> state[k] == want[k]
      invariant forall k :: j <= k < BLOCK_SIZE ==> state[k] == old(state[k])
    {
      assert want[j] == state[j] ^ src[at + j];
      state[j] := state[j] ^ src[at + j];
    }
    assert state[..] == want;
  }

  /** The subkey table hash_h reads: the caller's table when `precompute`
      is set and one was supplied, none otherwise. */
  function TableOf(precompute: bool, subkeys: array?<bv8>): Option<seq<bv8>>
    reads subkeys
  {
    if precompute && subkeys != null then Some(subkeys[..]) else None
  }

  /** elihash: XORs into `state` the contributions of blocks 0 .. n-2 of
      the padded message, n = num_blocks, each hashed with counter j + 1.
      The last block is not read; num_blocks >= 1 is needed because the
      loop bound num_blocks - 1 is an unsigned subtraction. A valid
      variant is needed only when the loop runs. The parallel
      branch computes the same state (ParallelMatchesSequential); the
      model runs the sequential loop for both values of `parallel`. */
  method Elihash(state: array<bv8>, numBlocks: nat, roundKeys7: array<bv8>, subkeys: array?<bv8>, precompute: bool,
                 padded: array<bv8>, roundKeys4: array<bv8>, parallel: bool, variant: int)
    requires state.Length == BLOCK_SIZE && 1 <= numBlocks <= MAX_BLOCKS
    requires 16 * (numBlocks - 1) <= padded.Length
    requires 16 * 8 <= roundKeys7.Length && 16 * 5 <= roundKeys4.Length && (2 <= numBlocks ==> ValidVariant(variant))
    requires precompute && subkeys != null ==> 16 * (numBlocks - 1) <= subkeys.Length
    requires state != padded && state != roundKeys7 && state != roundKeys4 && state != subkeys
    modifies state
    ensures Hasher(roundKeys7[..], roundKeys4[..], TableOf(precompute, subkeys), variant).Valid(numBlocks - 1)
    ensures state[..] == Xor(old(state[..]),
      Hasher(roundKeys7[..], roundKeys4[..], TableOf(precompute, subkeys), variant).Fold(padded[..], numBlocks - 1))
  {
    ghost var h := Hasher(roundKeys7[..], roundKeys4[..], TableOf(precompute, subkeys), variant);
    ghost var terms := h.Terms(padded[..], numBlocks - 1);
    ghost var start := state[..];
    XorZero(start);
    for i := 0 to numBlocks - 1
      invariant state[..] == Xor(start, XorRange(terms, 0, i))
    {
      Absorb(h, state, i, roundKeys7, subkeys, precompute, padded, roundKeys4, variant);
      XorAssoc(start, XorRange(terms, 0, i), terms[i]);
    }
  }

  /** The Hasher that elihash's arguments stand for. */
  ghost predicate Describes(h: Hasher, roundKeys7: array<bv8>, roundKeys4: array<bv8>, subkeys: array?<bv8>,
                            precompute: bool, variant: int)
    reads roundKeys7, roundKeys4, subkeys
  {
    h == Hasher(roundKeys7[..], roundKeys4[..], TableOf(precompute, subkeys), variant)
  }

  /** One iteration of the elihash loop: the contribution of block j,
      XOR-ed into `state`. */
  method Absorb(ghost h: Hasher, state: array<bv8>, j: nat, roundKeys7: array<bv8>, subkeys: array?<bv8>, precompute: bool,
                padded: array<bv8>, roundKeys4: array<bv8>, variant: int)
    requires Describes(h, roundKeys7, roundKeys4, subkeys, precompute, variant)
    requires state.Length == BLOCK_SIZE && 16 * (j + 1) <= padded.Length && h.Valid(j + 1)
    requires state != padded && state != roundKeys7 && state != roundKeys4 && state != subkeys
    modifies state
    ensures state[..] == Xor(old(state[..]), h.Term(padded[..], j))
  {
    var iOutput := TermOf(h, j, roundKeys7, subkeys, precompute, padded, roundKeys4, variant);
    XorBlockInto(state, iOutput, 0);
    assert iOutput[0 .. 16] == iOutput[..];
  }

  /** The body of the elihash loop up to the XOR into the state:
      h_output = hash_h(j + 1), i_output = hash_i(h_output, block j). */
  method TermOf(ghost h: Hasher, j: nat, roundKeys7: array<bv8>, subkeys: array?<bv8>, precompute: bool,
                padded: array<bv8>, roundKeys4: array<bv8>, variant: int) returns (iOutput: array<bv8>)
    requires Describes(h, roundKeys7, roundKeys4, subkeys, precompute, variant)
    requires 16 * (j + 1) <= padded.Length && h.Valid(j + 1)
    ensures fresh(iOutput) && iOutput.Length == BLOCK_SIZE
    ensures iOutput[..] == h.Term(padded[..], j)
  {
    var hOutput := HOf(h, j + 1, roundKeys7, subkeys, precompute, roundKeys4, variant);
    iOutput := new bv8[BLOCK_SIZE];
    HashI(hOutput, padded, 16 * j, iOutput, roundKeys4);
    assert padded[16 * j .. 16 * j + 16] == BlockAt(padded[..], j);
  }

  /** h_output = hash_h(counter) in a fresh buffer: the subkey the Hasher
      uses for that counter. */
  method HOf(ghost h: Hasher, counter: U32, roundKeys7: array<bv8>, subkeys: array?<bv8>, precompute: bool,
             roundKeys4: array<bv8>, variant: int) returns (hOutput: array<bv8>)
    requires Describes(h, roundKeys7, roundKeys4, subkeys, precompute, variant)
    requires 1 <= counter && h.Valid(counter)
    ensures fresh(hOutput) && hOutput.Length == BLOCK_SIZE
    ensures hOutput[..] == h.HValue(counter)
  {
    hOutput := new bv8[BLOCK_SIZE];
    HashH(counter, hOutput, roundKeys7, subkeys, precompute, variant);
  }

  /** precompute_subkeys: for i = 1 .. max_blocks, stores h(i) at bytes
      16(i-1) .. 16i of `subkeys` and writes nothing beyond 16 max_blocks
      bytes. The offsets here are the intended ones; see OffsetWraps for
      the 32-bit arithmetic of the C code. max_blocks < 2^32 - 1 is needed
      because the 32-bit loop counter would otherwise wrap around and the
      loop never end. */
  method PrecomputeSubkeys(subkeys: array<bv8>, maxBlocks: nat, roundKeys: array<bv8>, variant: int)
    requires maxBlocks < MAX_COUNTER && 16 * maxBlocks <= subkeys.Length
    requires 16 * 8 <= roundKeys.Length && ValidVariant(variant) && subkeys != roundKeys
    modifies subkeys
    ensures subkeys[..16 * maxBlocks] == SubkeyTable(roundKeys[..], variant, maxBlocks)
    ensures subkeys[16 * maxBlocks..] == old(subkeys[16 * maxBlocks..])
  {
    ghost var entries := Subkeys(roundKeys[..], variant, maxBlocks);
    ghost var orig := subkeys[..];
    for i := 1 to maxBlocks + 1
      invariant subkeys[..16 * (i - 1)] == Flatten(entries[..i - 1])
      invariant subkeys[16 * (i - 1)..] == orig[16 * (i - 1)..]
    {
      ghost var before := subkeys[..];
      StoreEntry(subkeys, i, roundKeys, variant);
      StoreNext(entries, orig, before, subkeys[..], i);
    }
    assert entries[..maxBlocks] == entries;
  }

  /** One iteration of the precompute_subkeys loop: h(i) stored at bytes
      16(i-1) .. 16i, every other byte kept. */
  method StoreEntry(subkeys: array<bv8>, i: U32, roundKeys: array<bv8>, variant: int)
    requires 1 <= i && 16 * i <= subkeys.Length
    requires 16 * 8 <= roundKeys.Length && ValidVariant(variant) && subkeys != roundKeys
    modifies subkeys
    ensures subkeys[16 * (i - 1) .. 16 * i] == H(roundKeys[..], i, variant)
    ensures forall k :: 0 <= k < 16 * (i - 1) ==> subkeys[k] == old(subkeys[k])
    ensures forall k :: 16 * i <= k < subkeys.Length ==> subkeys[k] == old(subkeys[k])
  {
    var counter := new bv8[BLOCK_SIZE];
    var _ := EncodeCounter(i as bv32, counter, variant);
    ghost var rk, block := roundKeys[..], counter[..16];
    assert block == CounterBlock(i as bv32, variant);
    var at := 16 * (i - 1);
    AesEncrypt(counter, roundKeys, subkeys, at, 7);
    assert subkeys[at .. at + 16] == Encrypt(block, rk, 7);
    assert roundKeys[..] == rk;
  }

  // ---------------------------------------------------------------------
  // The table offsets as the C code computes them
  // ---------------------------------------------------------------------

  /** The byte offset `(counter - 1) * BLOCK_SIZE` of hash_h and
      precompute_subkeys: counter is a uint32_t and BLOCK_SIZE an int, so
      the product is computed modulo 2^32. */
  function WrappedOffset(c: nat): (off: nat)
    requires 1 <= c <= MAX_COUNTER
    ensures off + 16 <= 16 * c
  {
    (c - 1) * 16 % 0x1_0000_0000
  }

  /** Overwrites 16 bytes of `buf` at `off`. */
  function Store(buf: seq<bv8>, off: nat, b: Block): (r: seq<bv8>)
    requires off + 16 <= |buf|
    ensures |r| == |buf|
  {
    buf[..off] + b + buf[off + 16..]
  }

  /** The table precompute_subkeys leaves as written, after counters
      1 .. n, in a buffer that held `init`: entry c - 1, h(c) in the model,
      stored at the wrapped offset of c. */
  function TableAsWritten(entries: seq<Block>, init: seq<bv8>, n: nat): (t: seq<bv8>)
    requires n <= |entries| && n <= MAX_COUNTER && 16 * n <= |init|
    ensures |t| == |init|
  {
    if n == 0 then init
    else Store(TableAsWritten(entries, init, n - 1), WrappedOffset(n), entries[n - 1])
  }

  /** The entry hash_h as written reads for counter c. */
  function ReadAsWritten(table: seq<bv8>, c: nat): Block
    requires 1 <= c <= MAX_COUNTER && 16 * c <= |table|
  {
    table[WrappedOffset(c) .. WrappedOffset(c) + 16]
  }

  /** Up to 2^28 counters the 32-bit offsets do not wrap, and the table as
      written is the intended one followed by the untouched bytes. */
  lemma {:induction false} AsWrittenBelowWrap(entries: seq<Block>, init: seq<bv8>, n: nat)
    requires n <= |entries| && n <= 0x1000_0000 && 16 * n <= |init|
    ensures TableAsWritten(entries, init, n) == Flatten(entries[..n]) + init[16 * n..]
  {
    if n > 0 {
      AsWrittenBelowWrap(entries, init, n - 1);
      var prev := Flatten(entries[..n - 1]);
      assert entries[..n][..n - 1] == entries[..n - 1];
      assert WrappedOffset(n) == 16 * (n - 1);
      assert (prev + init[16 * (n - 1)..])[..16 * (n - 1)] == prev;
      assert (prev + init[16 * (n - 1)..])[16 * n..] == init[16 * n..];
    }
  }

  /** With max_blocks = 2^28 + 1 the write for counter 2^28 + 1 lands on
      offset 0, over entry 0, so hash_h as written returns h(2^28 + 1) for
      counter 1, where the table precompute_subkeys is meant to build holds
      h(1): AES-7 of a different counter block. */
  lemma OffsetWraps(rk7: seq<bv8>, variant: int, init: seq<bv8>)
    requires 16 * 8 <= |rk7| && ValidVariant(variant) && |init| == 16 * 0x1000_0001
    ensures WrappedOffset(0x1000_0001) == WrappedOffset(1) == 0
    ensures ReadAsWritten(TableAsWritten(Subkeys(rk7, variant, 0x1000_0001), init, 0x1000_0001), 1)
      == H(rk7, 0x1000_0001, variant)
    ensures SubkeyTable(rk7, variant, 0x1000_0001)[0 .. 16] == H(rk7, 1, variant)
    ensures CounterBlock(0x1000_0001, variant) != CounterBlock(1, variant)
  {
    CounterBlockInjective(0x1000_0001, 1, variant);
    var n := 0x1000_0001;
    var entries := Subkeys(rk7, variant, n);
    var prev := TableAsWritten(entries, init, n - 1);
    assert WrappedOffset(n) == 0;
    assert TableAsWritten(entries, init, n) == Store(prev, 0, entries[n - 1]);
    assert Store(prev, 0, entries[n - 1])[0 .. 16] == entries[n - 1];
    SubkeyTableEntry(rk7, variant, n, 1);
  }
}
