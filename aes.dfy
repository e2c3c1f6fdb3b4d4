/** The AES-128 block primitive of FIPS 197, with the number of rounds as a
    parameter: the S-box and round constants, the key expansion of section
    5.2 and the cipher of section 5.1. The round functions stand for the
    AES-NI instructions AESENC and AESENCLAST that the C code calls; they are
    written out as SubBytes, ShiftRows, MixColumns and AddRoundKey (sections
    5.1.1 to 5.1.4), on the column-major byte order in which AES-NI loads a
    16-byte buffer. */
module Aes {
  import opened Blocks

  /** The S-box of FIPS 197 figure 7: the substitution of one byte. */
  function SubByte(b: bv8): bv8 {
    match b
      case 0x00 => 0x63 case 0x01 => 0x7c case 0x02 => 0x77 case 0x03 => 0x7b
      case 0x04 => 0xf2 case 0x05 => 0x6b case 0x06 => 0x6f case 0x07 => 0xc5
      case 0x08 => 0x30 case 0x09 => 0x01 case 0x0a => 0x67 case 0x0b => 0x2b
      case 0x0c => 0xfe case 0x0d => 0xd7 case 0x0e => 0xab case 0x0f => 0x76
      case 0x10 => 0xca case 0x11 => 0x82 case 0x12 => 0xc9 case 0x13 => 0x7d
      case 0x14 => 0xfa case 0x15 => 0x59 case 0x16 => 0x47 case 0x17 => 0xf0
      case 0x18 => 0xad case 0x19 => 0xd4 case 0x1a => 0xa2 case 0x1b => 0xaf
      case 0x1c => 0x9c case 0x1d => 0xa4 case 0x1e => 0x72 case 0x1f => 0xc0
      case 0x20 => 0xb7 case 0x21 => 0xfd case 0x22 => 0x93 case 0x23 => 0x26
      case 0x24 => 0x36 case 0x25 => 0x3f case 0x26 => 0xf7 case 0x27 => 0xcc
      case 0x28 => 0x34 case 0x29 => 0xa5 case 0x2a => 0xe5 case 0x2b => 0xf1
      case 0x2c => 0x71 case 0x2d => 0xd8 case 0x2e => 0x31 case 0x2f => 0x15
      case 0x30 => 0x04 case 0x31 => 0xc7 case 0x32 => 0x23 case 0x33 => 0xc3
      case 0x34 => 0x18 case 0x35 => 0x96 case 0x36 => 0x05 case 0x37 => 0x9a
      case 0x38 => 0x07 case 0x39 => 0x12 case 0x3a => 0x80 case 0x3b => 0xe2
      case 0x3c => 0xeb case 0x3d => 0x27 case 0x3e => 0xb2 case 0x3f => 0x75
      case 0x40 => 0x09 case 0x41 => 0x83 case 0x42 => 0x2c case 0x43 => 0x1a
      case 0x44 => 0x1b case 0x45 => 0x6e case 0x46 => 0x5a case 0x47 => 0xa0
      case 0x48 => 0x52 case 0x49 => 0x3b case 0x4a => 0xd6 case 0x4b => 0xb3
      case 0x4c => 0x29 case 0x4d => 0xe3 case 0x4e => 0x2f case 0x4f => 0x84
      case 0x50 => 0x53 case 0x51 => 0xd1 case 0x52 => 0x00 case 0x53 => 0xed
      case 0x54 => 0x20 case 0x55 => 0xfc case 0x56 => 0xb1 case 0x57 => 0x5b
      case 0x58 => 0x6a case 0x59 => 0xcb case 0x5a => 0xbe case 0x5b => 0x39
      case 0x5c => 0x4a case 0x5d => 0x4c case 0x5e => 0x58 case 0x5f => 0xcf
      case 0x60 => 0xd0 case 0x61 => 0xef case 0x62 => 0xaa case 0x63 => 0xfb
      case 0x64 => 0x43 case 0x65 => 0x4d case 0x66 => 0x33 case 0x67 => 0x85
      case 0x68 => 0x45 case 0x69 => 0xf9 case 0x6a => 0x02 case 0x6b => 0x7f
      case 0x6c => 0x50 case 0x6d => 0x3c case 0x6e => 0x9f case 0x6f => 0xa8
      case 0x70 => 0x51 case 0x71 => 0xa3 case 0x72 => 0x40 case 0x73 => 0x8f
      case 0x74 => 0x92 case 0x75 => 0x9d case 0x76 => 0x38 case 0x77 => 0xf5
      case 0x78 => 0xbc case 0x79 => 0xb6 case 0x7a => 0xda case 0x7b => 0x21
      case 0x7c => 0x10 case 0x7d => 0xff case 0x7e => 0xf3 case 0x7f => 0xd2
      case 0x80 => 0xcd case 0x81 => 0x0c case 0x82 => 0x13 case 0x83 => 0xec
      case 0x84 => 0x5f case 0x85 => 0x97 case 0x86 => 0x44 case 0x87 => 0x17
      case 0x88 => 0xc4 case 0x89 => 0xa7 case 0x8a => 0x7e case 0x8b => 0x3d
      case 0x8c => 0x64 case 0x8d => 0x5d case 0x8e => 0x19 case 0x8f => 0x73
      case 0x90 => 0x60 case 0x91 => 0x81 case 0x92 => 0x4f case 0x93 => 0xdc
      case 0x94 => 0x22 case 0x95 => 0x2a case 0x96 => 0x90 case 0x97 => 0x88
      case 0x98 => 0x46 case 0x99 => 0xee case 0x9a => 0xb8 case 0x9b => 0x14
      case 0x9c => 0xde case 0x9d => 0x5e case 0x9e => 0x0b case 0x9f => 0xdb
      case 0xa0 => 0xe0 case 0xa1 => 0x32 case 0xa2 => 0x3a case 0xa3 => 0x0a
      case 0xa4 => 0x49 case 0xa5 => 0x06 case 0xa6 => 0x24 case 0xa7 => 0x5c
      case 0xa8 => 0xc2 case 0xa9 => 0xd3 case 0xaa => 0xac case 0xab => 0x62
      case 0xac => 0x91 case 0xad => 0x95 case 0xae => 0xe4 case 0xaf => 0x79
      case 0xb0 => 0xe7 case 0xb1 => 0xc8 case 0xb2 => 0x37 case 0xb3 => 0x6d
      case 0xb4 => 0x8d case 0xb5 => 0xd5 case 0xb6 => 0x4e case 0xb7 => 0xa9
      case 0xb8 => 0x6c case 0xb9 => 0x56 case 0xba => 0xf4 case 0xbb => 0xea
      case 0xbc => 0x65 case 0xbd => 0x7a case 0xbe => 0xae case 0xbf => 0x08
      case 0xc0 => 0xba case 0xc1 => 0x78 case 0xc2 => 0x25 case 0xc3 => 0x2e
      case 0xc4 => 0x1c case 0xc5 => 0xa6 case 0xc6 => 0xb4 case 0xc7 => 0xc6
      case 0xc8 => 0xe8 case 0xc9 => 0xdd case 0xca => 0x74 case 0xcb => 0x1f
      case 0xcc => 0x4b case 0xcd => 0xbd case 0xce => 0x8b case 0xcf => 0x8a
      case 0xd0 => 0x70 case 0xd1 => 0x3e case 0xd2 => 0xb5 case 0xd3 => 0x66
      case 0xd4 => 0x48 case 0xd5 => 0x03 case 0xd6 => 0xf6 case 0xd7 => 0x0e
      case 0xd8 => 0x61 case 0xd9 => 0x35 case 0xda => 0x57 case 0xdb => 0xb9
      case 0xdc => 0x86 case 0xdd => 0xc1 case 0xde => 0x1d case 0xdf => 0x9e
      case 0xe0 => 0xe1 case 0xe1 => 0xf8 case 0xe2 => 0x98 case 0xe3 => 0x11
      case 0xe4 => 0x69 case 0xe5 => 0xd9 case 0xe6 => 0x8e case 0xe7 => 0x94
      case 0xe8 => 0x9b case 0xe9 => 0x1e case 0xea => 0x87 case 0xeb => 0xe9
      case 0xec => 0xce case 0xed => 0x55 case 0xee => 0x28 case 0xef => 0xdf
      case 0xf0 => 0x8c case 0xf1 => 0xa1 case 0xf2 => 0x89 case 0xf3 => 0x0d
      case 0xf4 => 0xbf case 0xf5 => 0xe6 case 0xf6 => 0x42 case 0xf7 => 0x68
      case 0xf8 => 0x41 case 0xf9 => 0x99 case 0xfa => 0x2d case 0xfb => 0x0f
      case 0xfc => 0xb0 case 0xfd => 0x54 case 0xfe => 0xbb case 0xff => 0x16
  }

  /** The S-box as the 256-entry table aes_key_schedule indexes. */
  function SBox(): (t: seq<bv8>)
    ensures |t| == 256
  {
    seq(256, i requires 0 <= i < 256 => SubByte(i as bv8))
  }

  /** Round constants: the first byte of Rcon[1..10]. */
  const RCON: seq<bv8> := [0x01, 0x02, 0x04, 0x08, 0x10, 0x20, 0x40, 0x80, 0x1b, 0x36]

  // ---------------------------------------------------------------------
  // Key expansion (FIPS 197 section 5.2), word by word as the loop of
  // aes_key_schedule computes it. It is written for any 256-entry
  // substitution table `sbox`: AES uses SBox() (KeyExpansion below).
  // ---------------------------------------------------------------------

  /** RotWord (FIPS 197 section 5.2): the cyclic permutation
      [a0, a1, a2, a3] -> [a1, a2, a3, a0]. */
  function RotWord(w: seq<bv8>): (r: seq<bv8>)
    requires |w| == 4
    ensures |r| == 4
  {
    w[1..] + w[..1]
  }

  /** SubWord (FIPS 197 section 5.2): each byte of the word substituted
      through `sbox`. */
  function SubWord(sbox: seq<bv8>, w: seq<bv8>): (r: seq<bv8>)
    requires |sbox| == 256 && |w| == 4
    ensures |r| == 4
  {
    seq(4, j requires 0 <= j < 4 => sbox[w[j] as int])
  }

  /** The round constant word Rcon[k] = [x^(k-1), 0, 0, 0] for k = 1 .. 10
      (FIPS 197 section 5.2). */
  function RconWord(k: nat): (r: seq<bv8>)
    requires 1 <= k <= 10
    ensures |r| == 4
  {
    [RCON[k - 1], 0, 0, 0]
  }

  /** Bytewise XOR of two 4-byte words. */
  function WordXor(a: seq<bv8>, b: seq<bv8>): (w: seq<bv8>)
    requires |a| == 4 && |b| == 4
    ensures |w| == 4
  {
    seq(4, j requires 0 <= j < 4 => a[j] ^ b[j])
  }

  /** The `temp` of FIPS 197 section 5.2 for word i, from word i-1, w:
      SubWord(RotWord(w)) XOR Rcon[i/4] when i is a multiple of 4, and w
      itself otherwise (a 128-bit key has Nk = 4). For 4 <= i < 44 the
      round constant index i/4 lies in 1 .. 10. */
  function TempWord(sbox: seq<bv8>, w: seq<bv8>, i: nat): (t: seq<bv8>)
    requires |sbox| == 256 && |w| == 4 && 4 <= i < 44
    ensures |t| == 4
  {
    if i % 4 == 0 then WordXor(SubWord(sbox, RotWord(w)), RconWord(i / 4)) else w
  }

  /** SubWord after RotWord, byte by byte. */
  lemma SubRotWord(sbox: seq<bv8>, w: seq<bv8>)
    requires |sbox| == 256 && |w| == 4
    ensures SubWord(sbox, RotWord(w)) == [sbox[w[1] as int], sbox[w[2] as int], sbox[w[3] as int], sbox[w[0] as int]]
  {
    var r := RotWord(w);
    var sub := SubWord(sbox, r);
    assert r[0] == w[1] && r[1] == w[2] && r[2] == w[3] && r[3] == w[0];
    assert sub == [sub[0], sub[1], sub[2], sub[3]];
  }

  /** XOR-ing Rcon[k] changes only the first byte of a word. */
  lemma XorRcon(s: seq<bv8>, k: nat)
    requires |s| == 4 && 1 <= k <= 10
    ensures WordXor(s, RconWord(k)) == [s[0] ^ RCON[k - 1], s[1], s[2], s[3]]
  {
    var rc, x := RconWord(k), WordXor(s, RconWord(k));
    var d := [s[0] ^ RCON[k - 1], s[1], s[2], s[3]];
    forall j | 0 <= j < 4
      ensures x[j] == d[j]
    {
      if j == 0 {
      } else if j == 1 {
        assert rc[1] == 0;
      } else if j == 2 {
        assert rc[2] == 0;
      } else {
        assert rc[3] == 0;
      }
    }
  }

  /** The word that follows a schedule of i words: word i-4 XOR the temp
      word of word i-1. */
  function NextWord(sbox: seq<bv8>, rk: seq<bv8>, i: nat): (w: seq<bv8>)
    requires |sbox| == 256 && 4 <= i < 44 && |rk| == 4 * i
    ensures |w| == 4
  {
    WordXor(rk[4 * (i - 4) .. 4 * (i - 3)], TempWord(sbox, rk[4 * (i - 1) .. 4 * i], i))
  }

  /** Extends a schedule of i words word by word until it has n words. */
  function ExpandFrom(sbox: seq<bv8>, rk: seq<bv8>, i: nat, n: nat): (r: seq<bv8>)
    requires |sbox| == 256 && 4 <= i <= n <= 44 && |rk| == 4 * i
    ensures |r| == 4 * n
    decreases n - i
  {
    if i == n then rk else ExpandFrom(sbox, rk + NextWord(sbox, rk, i), i + 1, n)
  }

  /** The schedule of round keys 0 .. rounds, 16 bytes each. */
  function Expansion(sbox: seq<bv8>, key: Block, rounds: nat): (rk: seq<bv8>)
    requires |sbox| == 256 && 4 <= rounds <= 10
    ensures |rk| == 16 * (rounds + 1)
  {
    ExpandFrom(sbox, key, 4, 4 * (rounds + 1))
  }

  /** The AES-128 key schedule for `rounds` rounds. */
  function KeyExpansion(key: Block, rounds: nat): (rk: seq<bv8>)
    requires 4 <= rounds <= 10
    ensures |rk| == 16 * (rounds + 1)
  {
    Expansion(SBox(), key, rounds)
  }

  /** A schedule shorter than n words expands as itself extended by its
      next word. */
  lemma ExpandFromUnfold(sbox: seq<bv8>, rk: seq<bv8>, i: nat, n: nat)
    requires |sbox| == 256 && 4 <= i < n <= 44 && |rk| == 4 * i
    ensures ExpandFrom(sbox, rk, i, n) == ExpandFrom(sbox, rk + NextWord(sbox, rk, i), i + 1, n)
  {
  }

  /** Extending never changes the words already there. */
  lemma {:induction false} ExpandFromKeepsPrefix(sbox: seq<bv8>, rk: seq<bv8>, i: nat, n: nat)
    requires |sbox| == 256 && 4 <= i <= n <= 44 && |rk| == 4 * i
    ensures ExpandFrom(sbox, rk, i, n)[..4 * i] == rk
    decreases n - i
  {
    if i < n {
      var rk' := rk + NextWord(sbox, rk, i);
      ExpandFromKeepsPrefix(sbox, rk', i + 1, n);
      assert ExpandFrom(sbox, rk, i, n)[..4 * i] == ExpandFrom(sbox, rk', i + 1, n)[..4 * (i + 1)][..4 * i];
    }
  }

  /** Extending to k words and stopping there gives the first k words of
      any longer extension. */
  lemma {:induction false} ExpandFromTruncate(sbox: seq<bv8>, rk: seq<bv8>, i: nat, k: nat, n: nat)
    requires |sbox| == 256 && 4 <= i <= k <= n <= 44 && |rk| == 4 * i
    ensures ExpandFrom(sbox, rk, i, n)[..4 * k] == ExpandFrom(sbox, rk, i, k)
    decreases k - i
  {
    if i == k {
      ExpandFromKeepsPrefix(sbox, rk, i, n);
    } else {
      ExpandFromTruncate(sbox, rk + NextWord(sbox, rk, i), i + 1, k, n);
    }
  }

  /** Extending to k + 1 words appends the next word to the k-word
      extension. */
  lemma {:induction false} ExpandFromStep(sbox: seq<bv8>, rk: seq<bv8>, i: nat, k: nat)
    requires |sbox| == 256 && 4 <= i <= k < 44 && |rk| == 4 * i
    ensures ExpandFrom(sbox, rk, i, k + 1) == ExpandFrom(sbox, rk, i, k) + NextWord(sbox, ExpandFrom(sbox, rk, i, k), k)
    decreases k - i
  {
    if i < k {
      ExpandFromStep(sbox, rk + NextWord(sbox, rk, i), i + 1, k);
    }
  }

  /** Round key 0 is the cipher key itself. */
  lemma ExpansionStartsWithKey(sbox: seq<bv8>, key: Block, rounds: nat)
    requires |sbox| == 256 && 4 <= rounds <= 10
    ensures Expansion(sbox, key, rounds)[..16] == key
  {
    ExpandFromKeepsPrefix(sbox, key, 4, 4 * (rounds + 1));
  }

  /** A shorter schedule is a prefix of a longer one for the same key: the
      round count only bounds the expansion loop. */
  lemma ExpansionPrefix(sbox: seq<bv8>, key: Block, r: nat, r': nat)
    requires |sbox| == 256 && 4 <= r <= r' <= 10
    ensures Expansion(sbox, key, r) == Expansion(sbox, key, r')[..16 * (r + 1)]
  {
    ExpandFromTruncate(sbox, key, 4, 4 * (r + 1), 4 * (r' + 1));
  }

  /** The recurrence of FIPS 197 section 5.2 holds of the schedule at every
      byte after the key: byte j of word i is byte j of word i-4 XOR byte
      j of the temp word derived from word i-1. */
  lemma ExpansionRecurrence(sbox: seq<bv8>, key: Block, rounds: nat, i: nat, j: nat)
    requires |sbox| == 256 && 4 <= rounds <= 10 && 4 <= i < 4 * (rounds + 1) && j < 4
    ensures var rk := Expansion(sbox, key, rounds);
      rk[4 * i + j] == rk[4 * (i - 4) + j] ^ TempWord(sbox, rk[4 * (i - 1) .. 4 * i], i)[j]
  {
    var rk := Expansion(sbox, key, rounds);
    var p := ExpandFrom(sbox, key, 4, i);
    var w := NextWord(sbox, p, i);
    ExpansionWords(sbox, key, rounds, i);
    assert rk[4 * i + j] == rk[4 * i .. 4 * (i + 1)][j] == w[j];
    SliceOfPrefix(rk, 4 * i, 4 * (i - 1), 4 * i);
    assert rk[4 * (i - 4) + j] == rk[..4 * i][4 * (i - 4) + j] == p[4 * (i - 4) .. 4 * (i - 3)][j];
  }

  /** Word i of the schedule is NextWord of the first i words. */
  lemma ExpansionWords(sbox: seq<bv8>, key: Block, rounds: nat, i: nat)
    requires |sbox| == 256 && 4 <= rounds <= 10 && 4 <= i < 4 * (rounds + 1)
    ensures var rk, p := Expansion(sbox, key, rounds), ExpandFrom(sbox, key, 4, i);
      rk[..4 * i] == p && rk[4 * i .. 4 * (i + 1)] == NextWord(sbox, p, i)
  {
    var n := 4 * (rounds + 1);
    var rk, p := Expansion(sbox, key, rounds), ExpandFrom(sbox, key, 4, i);
    ExpandFromTruncate(sbox, key, 4, i, n);
    ExpandFromTruncate(sbox, key, 4, i + 1, n);
    ExpandFromStep(sbox, key, 4, i);
    SliceOfPrefix(rk, 4 * (i + 1), 4 * i, 4 * (i + 1));
    assert (p + NextWord(sbox, p, i))[4 * i .. 4 * (i + 1)] == NextWord(sbox, p, i);
  }

  // ---------------------------------------------------------------------
  // The cipher (FIPS 197 section 5.1) with a chosen number of rounds.
  // ---------------------------------------------------------------------

  function SubBytes(s: Block): Block {
    seq(16, i requires 0 <= i < 16 => SubByte(s[i]))
  }

  /** The column of byte i of the state: bytes are stored column by
      column, so byte i lies in column i / 4. */
  function Col(i: nat): (c: nat)
    requires i < 16
    ensures c < 4 && 4 * c <= i < 4 * c + 4
  {
    if i < 4 then 0 else if i < 8 then 1 else if i < 12 then 2 else 3
  }

  /** The row of byte i of the state, i % 4. */
  function Row(i: nat): (r: nat)
    requires i < 16
    ensures r < 4 && i == 4 * Col(i) + r
  {
    i - 4 * Col(i)
  }

  /** x mod 4 for 0 <= x < 8. */
  function Wrap4(x: nat): (y: nat)
    requires x < 8
    ensures y < 4 && (y == x || y == x - 4)
  {
    if x < 4 then x else x - 4
  }

  /** Row r rotates left by r: the byte in row r of column c comes from
      column (c + r) mod 4. */
  function ShiftRows(s: Block): Block {
    seq(16, i requires 0 <= i < 16 => s[4 * Wrap4(Col(i) + Row(i)) + Row(i)])
  }

  /** Multiplication by x in GF(2^8) modulo x^8 + x^4 + x^3 + x + 1. */
  function XTime(b: bv8): bv8 {
    (b << 1) ^ (if b & 0x80 == 0 then 0 else 0x1b)
  }

  /** Each column is multiplied by {03}x^3 + {01}x^2 + {01}x + {02}: byte
      r of a column is 2 a_r + 3 a_(r+1) + a_(r+2) + a_(r+3), row indices
      mod 4. */
  function MixColumns(s: Block): Block {
    seq(16, i requires 0 <= i < 16 =>
      var c, r := 4 * Col(i), Row(i);
      var a0, a1, a2, a3 := s[c + r], s[c + Wrap4(r + 1)], s[c + Wrap4(r + 2)], s[c + Wrap4(r + 3)];
      XTime(a0) ^ (XTime(a1) ^ a1) ^ a2 ^ a3)
  }

  /** One full round, as AESENC computes it. */
  function AesRound(s: Block, k: Block): Block {
    Xor(MixColumns(ShiftRows(SubBytes(s))), k)
  }

  /** The final round, without MixColumns, as AESENCLAST computes it. */
  function AesLastRound(s: Block, k: Block): Block {
    Xor(ShiftRows(SubBytes(s)), k)
  }

  /** Round key `i` of a schedule: bytes 16i .. 16i+15. */
  function RoundKey(rk: seq<bv8>, i: nat): (k: Block)
    requires 16 * (i + 1) <= |rk|
  {
    rk[16 * i .. 16 * i + 16]
  }

  /** The state after full rounds 1 .. n. */
  function FullRounds(s: Block, rk: seq<bv8>, n: nat): Block
    requires 16 * (n + 1) <= |rk|
  {
    if n == 0 then s else AesRound(FullRounds(s, rk, n - 1), RoundKey(rk, n))
  }

  /** AES with `rounds` rounds: whitening with round key 0, `rounds - 1`
      full rounds, then the last round with round key `rounds`. */
  function Encrypt(input: Block, rk: seq<bv8>, rounds: nat): Block
    requires 16 * (rounds + 1) <= |rk|
  {
    var whitened := Xor(input, RoundKey(rk, 0));
    AesLastRound(FullRounds(whitened, rk, if rounds == 0 then 0 else rounds - 1), RoundKey(rk, rounds))
  }

  lemma {:induction false} FullRoundsSameKeys(s: Block, rk: seq<bv8>, rk': seq<bv8>, n: nat)
    requires 16 * (n + 1) <= |rk| && 16 * (n + 1) <= |rk'|
    requires forall k :: 1 <= k <= n ==> RoundKey(rk, k) == RoundKey(rk', k)
    ensures FullRounds(s, rk, n) == FullRounds(s, rk', n)
  {
    if n > 0 {
      FullRoundsSameKeys(s, rk, rk', n - 1);
    }
  }

  /** Round key k lies within the first 16 * (k + 1) bytes of a schedule. */
  lemma RoundKeyInPrefix(rk: seq<bv8>, rk': seq<bv8>, len: nat, k: nat)
    requires 16 * (k + 1) <= len <= |rk| && len <= |rk'|
    requires forall m :: 0 <= m < len ==> rk[m] == rk'[m]
    ensures RoundKey(rk, k) == RoundKey(rk', k)
  {
    var a, b := RoundKey(rk, k), RoundKey(rk', k);
    forall m | 0 <= m < 16
      ensures a[m] == b[m]
    {
      assert a[m] == rk[16 * k + m] && b[m] == rk'[16 * k + m];
    }
  }

  /** Encryption with `rounds` rounds reads round keys 0 .. rounds only:
      two schedules that agree there give the same ciphertext. */
  lemma EncryptReadsRoundKeys(input: Block, rk: seq<bv8>, rk': seq<bv8>, rounds: nat)
    requires 16 * (rounds + 1) <= |rk| && 16 * (rounds + 1) <= |rk'|
    requires forall m :: 0 <= m < 16 * (rounds + 1) ==> rk[m] == rk'[m]
    ensures Encrypt(input, rk, rounds) == Encrypt(input, rk', rounds)
  {
    var len := 16 * (rounds + 1);
    forall k | 0 <= k <= rounds
      ensures RoundKey(rk, k) == RoundKey(rk', k)
    {
      RoundKeyInPrefix(rk, rk', len, k);
    }
    var n := if rounds == 0 then 0 else rounds - 1;
    FullRoundsSameKeys(Xor(input, RoundKey(rk, 0)), rk, rk', n);
  }

  /** Reduced-round AES under a longer schedule of the same key is the same
      function as under the schedule expanded for exactly that many rounds. */
  lemma ReducedRoundsUseShortSchedule(key: Block, input: Block, r: nat, r': nat)
    requires 4 <= r <= r' <= 10
    ensures Encrypt(input, KeyExpansion(key, r'), r) == Encrypt(input, KeyExpansion(key, r), r)
  {
    ExpansionPrefix(SBox(), key, r, r');
    EncryptReadsRoundKeys(input, KeyExpansion(key, r'), KeyExpansion(key, r), r);
  }
}
