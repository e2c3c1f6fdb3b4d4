/** The primitives of src/utils.c over byte buffers: the AES key schedule
    and block encryption with a chosen round count, the counter encoding of
    the four variants, and the ISO/IEC 9797-1 method 2 padding. Each method
    is proved against a specification function; the properties of the
    construction are lemmas about those functions. */
module Utils {
  import opened Blocks
  import opened Aes
  import opened Wrappers
  import opened Mem

  // ---------------------------------------------------------------------
  // Counter encoding
  // ---------------------------------------------------------------------

  /** The variants encode_counter knows. */
  predicate ValidVariant(variant: int) {
    0 <= variant <= 3
  }

  /** The four bytes of a 32-bit counter, most significant first. */
  function BigEndian(c: bv32): (b: seq<bv8>)
    ensures |b| == 4
  {
    [(c >> 24) as bv8, ((c >> 16) & 0xff) as bv8, ((c >> 8) & 0xff) as bv8, (c & 0xff) as bv8]
  }

  /** The four bytes of a counter as a 32-bit store writes them on a
      little-endian machine. */
  function LittleEndian(c: bv32): (b: seq<bv8>)
    ensures |b| == 4
  {
    [(c & 0xff) as bv8, ((c >> 8) & 0xff) as bv8, ((c >> 16) & 0xff) as bv8, (c >> 24) as bv8]
  }

  /** The block encode_counter writes for a counter on success: variant 0
      repeats the big-endian counter four times, variants 1 and 2 put it
      after 12 zero bytes, and variant 3 stores it after 12 zero bytes in
      native order, taken here to be little-endian. */
  function CounterBlock(c: bv32, variant: int): Block
    requires ValidVariant(variant)
  {
    var be := BigEndian(c);
    if variant == 0 then be + be + be + be
    else if variant == 1 || variant == 2 then seq(12, _ => 0) + be
    else seq(12, _ => 0) + LittleEndian(c)
  }

  /** The counter whose big-endian bytes are b0 b1 b2 b3. */
  function FromBigEndian(b0: bv8, b1: bv8, b2: bv8, b3: bv8): bv32 {
    (b0 as bv32 << 24) | (b1 as bv32 << 16) | (b2 as bv32 << 8) | b3 as bv32
  }

  /** Reads the counter back from the last four bytes of its block. */
  function DecodeCounter(b: Block, variant: int): bv32
    requires ValidVariant(variant)
  {
    if variant == 3 then FromBigEndian(b[15], b[14], b[13], b[12])
    else FromBigEndian(b[12], b[13], b[14], b[15])
  }

  lemma BigEndianRoundTrip(c: bv32)
    ensures var b := BigEndian(c); FromBigEndian(b[0], b[1], b[2], b[3]) == c
  {
  }

  lemma LittleEndianRoundTrip(c: bv32)
    ensures var b := LittleEndian(c); FromBigEndian(b[3], b[2], b[1], b[0]) == c
  {
  }

  /** The last four bytes of a counter block hold the counter, big-endian
      except in variant 3. */
  lemma CounterBlockTail(c: bv32, variant: int)
    requires ValidVariant(variant)
    ensures CounterBlock(c, variant)[12..] == if variant == 3 then LittleEndian(c) else BigEndian(c)
  {
  }

  /** Every variant's block determines its counter: decoding the encoded
      block gives the counter back, so distinct counters get distinct
      blocks (the per-block domain separation of the hash). Variants 1 and
      2 write the same block. */
  lemma CounterRoundTrip(c: bv32, variant: int)
    requires ValidVariant(variant)
    ensures DecodeCounter(CounterBlock(c, variant), variant) == c
    ensures variant == 2 ==> CounterBlock(c, 2) == CounterBlock(c, 1)
  {
    var b := CounterBlock(c, variant);
    CounterBlockTail(c, variant);
    var t := b[12..];
    assert b[12] == t[0] && b[13] == t[1] && b[14] == t[2] && b[15] == t[3];
    if variant == 3 {
      LittleEndianRoundTrip(c);
    } else {
      BigEndianRoundTrip(c);
    }
  }

  lemma CounterBlockInjective(c1: bv32, c2: bv32, variant: int)
    requires ValidVariant(variant)
    ensures CounterBlock(c1, variant) == CounterBlock(c2, variant) <==> c1 == c2
  {
    CounterRoundTrip(c1, variant);
    CounterRoundTrip(c2, variant);
  }

  /** Variant 3 writes the same block as the compact variants exactly when
      the counter's little-endian bytes equal its big-endian ones; counter
      1 already tells them apart. */
  lemma NativeOrderVariant(c: bv32)
    ensures CounterBlock(c, 3) == CounterBlock(c, 1) <==> LittleEndian(c) == BigEndian(c)
    ensures CounterBlock(1, 3) != CounterBlock(1, 1)
  {
    CounterBlockTail(c, 3);
    CounterBlockTail(c, 1);
    assert CounterBlock(c, 3)[..12] == CounterBlock(c, 1)[..12];
    assert CounterBlock(1, 3)[15] == 0 && CounterBlock(1, 1)[15] == 1;
  }

  /** encode_counter: rejects counter 0, a null output and an unknown
      variant with -1 and writes nothing; otherwise writes the counter's
      block into output[0..16], leaves the rest of the buffer alone and
      returns 1. (A uint32_t is never above 0xFFFFFFFF, so the upper range
      check never fires.) */
  method EncodeCounter(counter: bv32, output: array?<bv8>, variant: int) returns (rc: int)
    requires output != null ==> 16 <= output.Length
    modifies output
    ensures rc == (if counter != 0 && output != null && ValidVariant(variant) then 1 else -1)
    ensures rc == -1 && output != null ==> output[..] == old(output[..])
    ensures rc == 1 ==> output[..16] == CounterBlock(counter, variant) && output[16..] == old(output[16..])
  {
    if counter == 0 {
      return -1;
    }
    if output == null {
      return -1;
    }
    var counterBytes := BigEndian(counter);
    if variant == 0 {
      for i := 0 to 4
        invariant forall k :: 0 <= k < output.Length ==>
          output[k] == if k < 4 * i then counterBytes[k % 4] else old(output[k])
      {
        MemCpy(output, 4 * i, counterBytes);
      }
    } else if variant == 1 || variant == 2 {
      MemSet(output, 0, 12, 0);
      MemCpy(output, 12, counterBytes);
    } else if variant == 3 {
      MemSet(output, 0, 12, 0);
      // a 32-bit store of the counter, on a little-endian machine
      MemCpy(output, 12, LittleEndian(counter));
    } else {
      return -1;
    }
    if variant == 0 {
      WrittenRepeated(output[..], old(output[..]), counter);
    } else {
      WrittenAfterZeros(output[..], old(output[..]), counter, variant);
    }
    return 1;
  }

  /** Four copies of a 4-byte word, read byte by byte. */
  lemma Repeated(w: seq<bv8>, k: nat)
    requires |w| == 4 && k < 16
    ensures (w + w + w + w)[k] == w[k % 4]
  {
    if k >= 12 {
      assert (w + w + w + w)[k] == w[k - 12];
    } else if k >= 8 {
      assert (w + w + w + w)[k] == (w + w + w)[k] == w[k - 8];
    } else if k >= 4 {
      assert (w + w + w + w)[k] == (w + w)[k] == w[k - 4];
    }
  }

  /** The bytes variant 0 of encode_counter leaves in a buffer, read as a
      block. */
  lemma WrittenRepeated(after: seq<bv8>, before: seq<bv8>, c: bv32)
    requires |after| == |before| >= 16
    requires forall k :: 0 <= k < |after| ==> after[k] == if k < 16 then BigEndian(c)[k % 4] else before[k]
    ensures after[..16] == CounterBlock(c, 0) && after[16..] == before[16..]
  {
    var be := BigEndian(c);
    forall k | 0 <= k < 16
      ensures after[k] == CounterBlock(c, 0)[k]
    {
      Repeated(be, k);
    }
  }

  /** The bytes variants 1 to 3 of encode_counter leave in a buffer, read
      as a block. */
  lemma WrittenAfterZeros(after: seq<bv8>, before: seq<bv8>, c: bv32, variant: int)
    requires 1 <= variant <= 3 && |after| == |before| >= 16
    requires forall k :: 0 <= k < |after| ==>
      after[k] == if k < 12 then 0
                  else if k < 16 then (if variant == 3 then LittleEndian(c) else BigEndian(c))[k - 12]
                  else before[k]
    ensures after[..16] == CounterBlock(c, variant) && after[16..] == before[16..]
  {
    var tail := if variant == 3 then LittleEndian(c) else BigEndian(c);
    assert CounterBlock(c, variant) == seq(12, _ => 0) + tail;
  }

  // ---------------------------------------------------------------------
  // Padding (ISO/IEC 9797-1 padding method 2)
  // ---------------------------------------------------------------------

  /** The padded length: the next multiple of 16 strictly above `len`, so
      that an aligned message gains a whole block. */
  function PaddedLength(len: nat): (n: nat)
    ensures n % 16 == 0 && len < n <= len + 16
    ensures n == 16 * (len / 16 + 1)
  {
    var remainder := len % 16;
    len + (if remainder == 0 then 16 else 16 - remainder)
  }

  /** The message, the marker byte 0x80, then zeros up to PaddedLength. */
  function Pad(m: seq<bv8>): (p: seq<bv8>)
    ensures |p| == PaddedLength(|m|)
  {
    m + [0x80] + seq(PaddedLength(|m|) - |m| - 1, _ => 0)
  }

  /** Removal of the padding: drop trailing zero bytes, then the 0x80
      marker; None when no marker ends the data. */
  function Unpad(p: seq<bv8>): Option<seq<bv8>> {
    if p == [] then None
    else if p[|p| - 1] == 0 then Unpad(p[..|p| - 1])
    else if p[|p| - 1] == 0x80 then Some(p[..|p| - 1])
    else None
  }

  lemma {:induction false} UnpadMarkerZeros(m: seq<bv8>, k: nat)
    ensures Unpad(m + [0x80] + seq(k, _ => 0)) == Some(m)
  {
    var p := m + [0x80] + seq(k, _ => 0);
    if k == 0 {
      assert p == m + [0x80];
      assert p[..|p| - 1] == m;
    } else {
      assert p[|p| - 1] == 0;
      assert p[..|p| - 1] == m + [0x80] + seq(k - 1, _ => 0);
      UnpadMarkerZeros(m, k - 1);
    }
  }

  /** Padding is undone by Unpad, so it loses nothing. */
  lemma UnpadPad(m: seq<bv8>)
    ensures Unpad(Pad(m)) == Some(m)
  {
    UnpadMarkerZeros(m, PaddedLength(|m|) - |m| - 1);
  }

  /** Padding is injective: distinct messages, of the same length or not,
      never pad to the same buffer. */
  lemma PadInjective(m1: seq<bv8>, m2: seq<bv8>)
    ensures Pad(m1) == Pad(m2) <==> m1 == m2
  {
    UnpadPad(m1);
    UnpadPad(m2);
  }

  /** The padded buffer starts with the message, has 0x80 at index |m| and
      zeros after it; the empty message pads to 0x80 and 15 zero bytes. */
  lemma PadLayout(m: seq<bv8>)
    ensures var p := Pad(m);
      p[..|m|] == m && p[|m|] == 0x80 && (forall i :: |m| < i < |p| ==> p[i] == 0)
    ensures m == [] ==> Pad(m) == [0x80, 0, 0, 0, 0, 0, 0, 0, 0, 0, 0, 0, 0, 0, 0, 0]
  {
    var p := Pad(m);
    assert p[..|m|] == m;
  }

  /** pad_message: -1 on a null message; otherwise a fresh buffer holding
      Pad(message[..len]) and its length. Allocation failure is not
      modelled. */
  method PadMessage(message: array?<bv8>, len: nat) returns (rc: int, padded: array?<bv8>, paddedLen: nat)
    requires message != null ==> len <= message.Length
    ensures rc == (if message == null then -1 else 0)
    ensures rc == -1 ==> padded == null
    ensures rc == 0 ==> padded != null && fresh(padded) && paddedLen == padded.Length
    ensures rc == 0 ==> padded[..] == Pad(message[..len])
  {
    if message == null {
      return -1, null, 0;
    }
    var remainder := len % 16;
    paddedLen := len + (if remainder == 0 then 16 else 16 - remainder);
    padded := new bv8[paddedLen];
    MemCpy(padded, 0, message[..len]);
    padded[len] := 0x80;
    MemSet(padded, len + 1, paddedLen - len - 1, 0);
    assert padded[..] == Pad(message[..len]) by {
      var p := Pad(message[..len]);
      forall k | 0 <= k < paddedLen
        ensures padded[k] == p[k]
      {
        PadLayout(message[..len]);
        if k < len {
          assert p[..len][k] == p[k];
        }
      }
    }
    rc := 0;
  }

  // ---------------------------------------------------------------------
  // AES over buffers
  // ---------------------------------------------------------------------

  /** The inner loop of aes_key_schedule: word i := word i-4 XOR temp,
      byte by byte; the words before it are kept, and so is every byte
      after it. */
  method XorWord(roundKeys: array<bv8>, i: nat, temp: seq<bv8>)
    requires 4 <= i && 4 * (i + 1) <= roundKeys.Length && |temp| == 4
    modifies roundKeys
    ensures roundKeys[..4 * (i + 1)] == old(roundKeys[..4 * i]) + WordXor(old(roundKeys[4 * (i - 4) .. 4 * (i - 3)]), temp)
    ensures forall m :: 4 * (i + 1) <= m < roundKeys.Length ==> roundKeys[m] == old(roundKeys[m])
  {
    ghost var prev, w := roundKeys[..4 * i], WordXor(roundKeys[4 * (i - 4) .. 4 * (i - 3)], temp);
    for j := 0 to 4
      invariant forall m {:trigger roundKeys[m]} :: 0 <= m < roundKeys.Length ==>
        roundKeys[m] == if 4 * i <= m < 4 * i + j then old(roundKeys[m - 16]) ^ temp[m - 4 * i] else old(roundKeys[m])
    {
      roundKeys[4 * i + j] := roundKeys[4 * (i - 4) + j] ^ temp[j];
    }
    forall m | 0 <= m < 4 * (i + 1)
      ensures roundKeys[m] == (prev + w)[m]
    {
      if 4 * i <= m {
        assert w[m - 4 * i] == old(roundKeys[m - 16]) ^ temp[m - 4 * i];
      }
    }
    assert roundKeys[..4 * (i + 1)] == prev + w;
  }

  /** The start of each step of aes_key_schedule: temp is a copy of word
      i-1; when i is a multiple of 4 its bytes are rotated and substituted
      in one pass, with the round constant XOR-ed into the first. That is
      the temp word of FIPS 197 section 5.2, SubWord(RotWord(w)) XOR
      Rcon[i/4]. */
  method LoadTemp(sbox: seq<bv8>, roundKeys: array<bv8>, i: nat) returns (temp: seq<bv8>)
    requires |sbox| == 256 && 4 <= i < 44 && 4 * i <= roundKeys.Length
    ensures temp == TempWord(sbox, roundKeys[4 * (i - 1) .. 4 * i], i)
  {
    temp := roundKeys[4 * (i - 1) .. 4 * i];
    if i % 4 == 0 {
      ghost var w := temp;
      var t := temp[0];
      temp := temp[0 := sbox[temp[1] as int] ^ RCON[i / 4 - 1]];
      temp := temp[1 := sbox[temp[2] as int]];
      temp := temp[2 := sbox[temp[3] as int]];
      temp := temp[3 := sbox[t as int]];
      FusedTempWord(sbox, w, i / 4);
    }
  }

  /** The single pass of aes_key_schedule that rotates, substitutes and
      adds the round constant gives SubWord(RotWord(w)) XOR Rcon[k]. */
  lemma FusedTempWord(sbox: seq<bv8>, w: seq<bv8>, k: nat)
    requires |sbox| == 256 && |w| == 4 && 1 <= k <= 10
    ensures [sbox[w[1] as int] ^ RCON[k - 1], sbox[w[2] as int], sbox[w[3] as int], sbox[w[0] as int]]
         == WordXor(SubWord(sbox, RotWord(w)), RconWord(k))
  {
    SubRotWord(sbox, w);
    XorRcon(SubWord(sbox, RotWord(w)), k);
  }

  /** One iteration of the outer loop of aes_key_schedule: temp is word
      i-1, rotated, substituted and combined with the round constant when
      i is a multiple of 4; word i becomes word i-4 XOR temp. The first i
      words are left as they are and gain NextWord of them. */
  method ExpandWord(sbox: seq<bv8>, roundKeys: array<bv8>, i: nat)
    requires |sbox| == 256 && 4 <= i < 44 && 4 * (i + 1) <= roundKeys.Length
    modifies roundKeys
    ensures roundKeys[..4 * (i + 1)] == old(roundKeys[..4 * i]) + NextWord(sbox, old(roundKeys[..4 * i]), i)
    ensures forall m :: 4 * (i + 1) <= m < roundKeys.Length ==> roundKeys[m] == old(roundKeys[m])
  {
    ghost var prev := roundKeys[..4 * i];
    var temp := LoadTemp(sbox, roundKeys, i);
    SliceOfPrefix(roundKeys[..], 4 * i, 4 * (i - 1), 4 * i);
    SliceOfPrefix(roundKeys[..], 4 * i, 4 * (i - 4), 4 * (i - 3));
    XorWord(roundKeys, i, temp);
  }

  /** The memcpy that opens aes_key_schedule: round key 0 is the key. */
  method CopyKey(key: array<bv8>, roundKeys: array<bv8>)
    requires KEY_SIZE <= key.Length && KEY_SIZE <= roundKeys.Length && key != roundKeys
    modifies roundKeys
    ensures roundKeys[..16] == key[..16]
    ensures forall m :: 16 <= m < roundKeys.Length ==> roundKeys[m] == old(roundKeys[m])
  {
    MemCpy(roundKeys, 0, key[..16]);
    assert roundKeys[..16] == key[..16];
  }

  /** The expansion loop of aes_key_schedule, for a substitution table
      `sbox` (AES passes SBox()): copies the key into round key 0, then
      appends words 4 .. 4 * (rounds + 1) - 1. Bytes beyond round key
      `rounds` are not written. */
  method ExpandKey(sbox: seq<bv8>, key: array<bv8>, roundKeys: array<bv8>, rounds: nat)
    requires |sbox| == 256 && 4 <= rounds <= 10
    requires KEY_SIZE <= key.Length && 16 * (rounds + 1) <= roundKeys.Length && key != roundKeys
    modifies roundKeys
    ensures roundKeys[..16 * (rounds + 1)] == Expansion(sbox, old(key[..16]), rounds)
    ensures roundKeys[16 * (rounds + 1)..] == old(roundKeys[16 * (rounds + 1)..])
  {
    CopyKey(key, roundKeys);
    ExpandWords(sbox, roundKeys, 4 * (rounds + 1));
  }

  /** The word loop of aes_key_schedule: with round key 0 in place, words
      4 .. n-1 are appended one at a time; bytes from 4n on are kept. */
  method ExpandWords(sbox: seq<bv8>, roundKeys: array<bv8>, n: nat)
    requires |sbox| == 256 && 4 <= n <= 44 && 4 * n <= roundKeys.Length
    modifies roundKeys
    ensures roundKeys[..4 * n] == ExpandFrom(sbox, old(roundKeys[..16]), 4, n)
    ensures forall m :: 4 * n <= m < roundKeys.Length ==> roundKeys[m] == old(roundKeys[m])
  {
    ghost var schedule := ExpandFrom(sbox, roundKeys[..16], 4, n);
    for i := 4 to n
      invariant ExpandFrom(sbox, roundKeys[..4 * i], i, n) == schedule
      invariant forall m :: 4 * i <= m < roundKeys.Length ==> roundKeys[m] == old(roundKeys[m])
    {
      ghost var prev := roundKeys[..4 * i];
      ExpandWord(sbox, roundKeys, i);
      ExpandFromUnfold(sbox, prev, i, n);
    }
  }

  /** aes_key_schedule: -1 and nothing written when `rounds` is outside
      [4, 10] or a pointer is null; otherwise round_keys[0 .. 16(rounds+1))
      receives the FIPS 197 expansion of the key, computed word by word
      through a 4-byte `temp` buffer, the rest of the buffer is left alone,
      and 0 is returned. */
  method AesKeySchedule(key: array?<bv8>, roundKeys: array?<bv8>, rounds: int) returns (rc: int)
    requires key != null ==> KEY_SIZE <= key.Length
    requires roundKeys != null && 4 <= rounds <= 10 ==> 16 * (rounds + 1) <= roundKeys.Length
    requires key == null || key != roundKeys
    modifies roundKeys
    ensures rc == (if 4 <= rounds <= 10 && key != null && roundKeys != null then 0 else -1)
    ensures rc == -1 && roundKeys != null ==> roundKeys[..] == old(roundKeys[..])
    ensures rc == 0 ==> roundKeys[..16 * (rounds + 1)] == KeyExpansion(key[..16], rounds)
    ensures rc == 0 ==> roundKeys[16 * (rounds + 1)..] == old(roundKeys[16 * (rounds + 1)..])
  {
    if rounds < 4 || rounds > 10 {
      return -1;
    }
    if key == null || roundKeys == null {
      return -1;
    }
    ExpandKey(SBox(), key, roundKeys, rounds);
    return 0;
  }

  /** The rounds of aes_encrypt between loading the input and storing the
      result: whitening with round key 0, full rounds 1 .. rounds-1 (the
      AESENC loop), then the last round with round key `rounds`
      (AESENCLAST). Each round key is an unaligned 16-byte load
      (_mm_loadu_si128) at offset 16i. */
  method Cipher(input: array<bv8>, roundKeys: array<bv8>, rounds: nat) returns (state: Block)
    requires 16 <= input.Length && 16 * (rounds + 1) <= roundKeys.Length
    ensures state == Encrypt(input[..16], roundKeys[..], rounds)
  {
    var k := roundKeys[0 .. 16];
    assert k == RoundKey(roundKeys[..], 0);
    state := Xor(input[..16], k);
    state := Rounds(state, roundKeys, rounds);
    k := roundKeys[16 * rounds .. 16 * rounds + 16];
    assert k == RoundKey(roundKeys[..], rounds);
    state := AesLastRound(state, k);
  }

  /** The AESENC loop of aes_encrypt: full rounds 1 .. rounds-1 applied to
      the whitened state. */
  method Rounds(whitened: Block, roundKeys: array<bv8>, rounds: nat) returns (state: Block)
    requires 16 * (rounds + 1) <= roundKeys.Length
    ensures state == FullRounds(whitened, roundKeys[..], if rounds == 0 then 0 else rounds - 1)
  {
    state := whitened;
    var i := 1;
    while i < rounds
      invariant 1 <= i <= (if rounds == 0 then 1 else rounds)
      invariant state == FullRounds(whitened, roundKeys[..], i - 1)
    {
      var k := roundKeys[16 * i .. 16 * i + 16];
      assert k == RoundKey(roundKeys[..], i);
      state := AesRound(state, k);
      i := i + 1;
    }
    assert i - 1 == if rounds == 0 then 0 else rounds - 1;
  }

  /** aes_encrypt: with a null pointer it returns without writing;
      otherwise output[outAt .. outAt+16) receives AES with `rounds` rounds
      of input[0..16) under round keys 0 .. rounds, and nothing else in
      `output` changes. The input is loaded before anything is stored, so
      input and output may be the same buffer. */
  method AesEncrypt(input: array?<bv8>, roundKeys: array?<bv8>, output: array?<bv8>, outAt: nat, rounds: nat)
    requires input != null ==> 16 <= input.Length
    requires roundKeys != null ==> 16 * (rounds + 1) <= roundKeys.Length
    requires output != null ==> outAt + 16 <= output.Length
    modifies output
    ensures input == null || roundKeys == null || output == null ==>
      output == null || output[..] == old(output[..])
    ensures input != null && roundKeys != null && output != null ==>
      output[outAt .. outAt + 16] == Encrypt(old(input[..16]), old(roundKeys[..]), rounds)
    ensures input != null && roundKeys != null && output != null ==>
      (forall k :: 0 <= k < outAt ==> output[k] == old(output[k])) &&
      (forall k :: outAt + 16 <= k < output.Length ==> output[k] == old(output[k]))
  {
    if input == null || roundKeys == null || output == null {
      return;
    }
    var state := Cipher(input, roundKeys, rounds);
    MemCpy(output, outAt, state);
    assert output[outAt .. outAt + 16] == state;
  }
}
