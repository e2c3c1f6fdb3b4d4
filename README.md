# EliMAC in Dafny

EliMAC is a message authentication code built from reduced-round AES-128.
`elimac` pads the message with ISO/IEC 9797-1 padding method 2: a 0x80 byte,
then zeros up to the next multiple of 16 bytes, so an aligned message gains a
whole block. It then works through these steps:

- It derives 7- and 4-round AES key schedules from key1 and a 10-round
  schedule from key2.
- It XOR-folds every padded block but the last into a 16-byte state with
  Elihash. Block j contributes `i(h(j+1), M_j)`, where:
  - `h(c)` is AES-7 of the encoded 32-bit counter c;
  - `i(h, m)` is AES-4 of `h XOR m`.
- Subkeys `h(c)` can come from a table precomputed for counters
  1 .. max_blocks. The fold may run on several threads.
- It XORs the last padded block into the state as it is.
- It encrypts the state with AES-10 under key2 and copies out the first
  t/8 bytes.

The model follows the C code function by function. Every C function is an
imperative method over arrays. Each method is proved against a pure
specification function:

| specification function | what it stands for |
|---|---|
| `KeyExpansion`, `Encrypt` | FIPS 197 sections 5.2 and 5.1, with a chosen round count |
| `TempWord`, `RotWord`, `SubWord`, `RconWord` | the temp word of the key expansion, FIPS 197 section 5.2 |
| `AesRound`, `AesLastRound` | one AESENC and one AESENCLAST instruction: FIPS 197 sections 5.1.1 to 5.1.4 |
| `CounterBlock` | the counter encoding |
| `Pad` | the padding |
| `Hasher.Fold` | the Elihash accumulator |
| `SubkeyTable` | the precomputed table |
| `Tag` | the tag |

Lemmas about these functions state the properties of the construction:

- the cached and on-the-fly subkeys give the same fold;
- the parallel merge gives the sequential fold;
- a shorter tag is a prefix of a longer one;
- padding is injective;
- a shorter key schedule is a prefix of a longer one;
- AES with r rounds reads only round keys 0 .. r.

The AES rounds are AES-NI intrinsics in C. Here they are written out as
SubBytes, ShiftRows, MixColumns and AddRoundKey (FIPS 197 sections 5.1.1 to
5.1.4), on the column-major byte order in which AES-NI loads a buffer.

Files:

| file | module | contents |
|---|---|---|
| `blocks.dfy` | `Blocks` | bytes, 16-byte blocks, XOR algebra, the size constants of src/headers/elimac.h |
| `aes.dfy` | `Aes` | FIPS 197 |
| `mem.dfy` | `Mem` | memcpy and memset |
| `utils.dfy` | `Utils` | src/utils.c |
| `elihash.dfy` | `Elihash` | src/elihash.c |
| `elimac.dfy` | `Elimac` | src/elimac.c |
| `wrappers.dfy` | `Wrappers` | Option |

Three facts about the code shape the model:

- **No error for a missing table.** elimac has no error for a missing
  subkey table. With `precompute` set and `max_blocks == 0` it builds no
  table, and hash_h computes h on the fly (src/elimac.c:32).
- **No check on an undersized table.** elimac does not check the table
  size either. A table of fewer than num_blocks - 1 entries is read out of
  bounds (src/elihash.c:9). The model makes `max_blocks >= num_blocks - 1`
  a precondition of `Elimac.Elimac` whenever a table is built.
- **Variant 3 byte order.** Variant 3 stores the counter in native byte
  order (src/utils.c:122). On a little-endian machine that is the reverse of
  variants 1 and 2, not the same block (`Utils.NativeOrderVariant`). The
  model takes the native order to be little-endian.

## Model

| member | source | states |
|---|---|---|
| Utils.AesKeySchedule | src/utils.c:38-69 | -1 and the buffer unchanged when rounds is outside [4, 10] or a pointer is null; otherwise 0, bytes 0 .. 16(rounds+1) hold KeyExpansion(key, rounds) and the rest of the buffer is unchanged |
| Utils.ExpandKey | src/utils.c:50-67 | the memcpy of the key and then the word loop leave Expansion(sbox, key, rounds) in the first 16(rounds+1) bytes and keep every later byte |
| Utils.CopyKey | src/utils.c:50 | round key 0 becomes the key; no other byte changes |
| Utils.ExpandWords | src/utils.c:52-67 | the loop over words 4 .. n-1 extends round key 0 to ExpandFrom(sbox, key, 4, n) and keeps every byte from 4n on |
| Utils.ExpandWord | src/utils.c:54-66 | one iteration appends NextWord of the words before it and changes nothing else |
| Utils.LoadTemp | src/utils.c:54-62 | the copy of word i-1 and the in-place swap of bytes give the FIPS 197 temp word: SubWord(RotWord(w)) XOR Rcon[i/4] when i % 4 == 0, and w itself otherwise |
| Utils.FusedTempWord | src/utils.c:57-61 | the single pass that moves each substituted byte one place left and XORs rcon[i/4-1] into the first equals SubWord(RotWord(w)) XOR Rcon[i/4] |
| Utils.XorWord | src/utils.c:63-66 | word i becomes word i-4 XOR temp; the words before it and the bytes after it are kept |
| Aes.ExpansionStartsWithKey | src/utils.c:50 | the first 16 bytes of every schedule are the key |
| Aes.ExpansionRecurrence | src/utils.c:52-66 | byte j of word i is byte j of word i-4 XOR byte j of the temp word of word i-1, for every word after the key (FIPS 197 section 5.2) |
| Aes.ExpansionWords | src/utils.c:52-66 | the first i words of the schedule are the i-word expansion, and word i is NextWord of them |
| Aes.ExpansionPrefix | src/utils.c:52 | for 4 <= r <= r' <= 10, the r-round schedule is the first 16(r+1) bytes of the r'-round schedule: the round count only bounds the loop |
| Utils.AesEncrypt | src/utils.c:71-86 | with a null pointer, output unchanged; otherwise output[at .. at+16] is Encrypt(input, round keys, rounds), computed from the values before the store, and no other output byte changes |
| Utils.Cipher | src/utils.c:78-84 | whitening with round key 0, rounds-1 AESENC rounds and one AESENCLAST round give Encrypt(input, rk, rounds) |
| Utils.Rounds | src/utils.c:80-83 | the AESENC loop over i = 1 .. rounds-1, each with the 16-byte load at offset 16i, gives FullRounds, the recursive composition of full rounds with round keys 1 .. rounds-1 |
| Aes.EncryptReadsRoundKeys | src/utils.c:78-84 | two schedules that agree on bytes 0 .. 16(rounds+1) give the same ciphertext: only round keys 0 .. rounds are read |
| Aes.ReducedRoundsUseShortSchedule | src/utils.c:80-84 | AES with r rounds under the r'-round schedule of a key equals AES with r rounds under its r-round schedule |
| Utils.EncodeCounter | src/utils.c:88-130 | -1 with nothing written for counter 0, a null output or an unknown variant; otherwise 1, output[0..16] is CounterBlock(counter, variant) and the rest is kept |
| Utils.WrittenRepeated | src/utils.c:106-111 | the four memcpy calls of variant 0 leave the big-endian counter repeated four times |
| Utils.WrittenAfterZeros | src/utils.c:112-123 | the memset and the store of variants 1 to 3 leave 12 zero bytes followed by the counter bytes |
| Utils.CounterBlockTail | src/utils.c:112-122 | the last four bytes of the block hold the counter, big-endian except in variant 3 |
| Utils.BigEndianRoundTrip | src/utils.c:101-102 | the four big-endian bytes of a counter decode back to it |
| Utils.LittleEndianRoundTrip | src/utils.c:122 | the native-order bytes decode back to the counter |
| Utils.CounterRoundTrip | src/utils.c:101-122 | decoding the block of any variant gives the counter back; variants 1 and 2 write the same block |
| Utils.CounterBlockInjective | src/utils.c:101-122 | two counters get the same block under one variant if and only if they are equal |
| Utils.NativeOrderVariant | src/utils.c:112-122 | variant 3 and variant 1 give the same block if and only if the counter's little-endian and big-endian bytes coincide; counter 1 tells them apart |
| Utils.PadMessage | src/utils.c:132-151 | -1 and no buffer for a null message; otherwise 0 and a fresh buffer of paddedLen bytes holding Pad(message[..len]) |
| Utils.PaddedLength | src/utils.c:139-140 | the padded length is a multiple of 16 with len < n <= len + 16, namely 16(len/16 + 1), so an aligned length gains a whole block |
| Utils.Pad | src/utils.c:147-149 | the padded message has PaddedLength(len) bytes |
| Utils.PadLayout | src/utils.c:147-149 | the padded buffer starts with the message, has 0x80 at index len and zeros after it; the empty message pads to 0x80 and 15 zero bytes |
| Utils.UnpadMarkerZeros | src/utils.c:147-149 | stripping trailing zeros and then the marker from m, 0x80 and k zeros gives m back |
| Utils.UnpadPad | src/utils.c:147-149 | Unpad(Pad(m)) == Some(m): padding loses nothing |
| Utils.PadInjective | src/utils.c:147-149 | Pad(m1) == Pad(m2) if and only if m1 == m2, whatever the lengths |
| Elihash.HashH | src/elihash.c:4-17 | with precompute set and a table present, output is table entry counter-1; otherwise, including precompute set with a null table, output is AES-7 of CounterBlock(counter, variant) |
| Elihash.HOf | src/elihash.c:77 | h_output = hash_h(j+1) holds the subkey the Hasher uses for that counter, table entry or h(c) |
| Elihash.HashI | src/elihash.c:20-29 | output is AES-4 of h_output XOR the 16 message bytes at the given offset |
| Elihash.XorBlockInto | src/elihash.c:79-82 | the byte loop leaves state XOR the 16 source bytes |
| Elihash.TermOf | src/elihash.c:76-78 | i_output for block j is I(rk4, HValue(j+1), block j), the contribution of block j |
| Elihash.Absorb | src/elihash.c:76-82 | one loop iteration XORs the contribution of block j into the state |
| Elihash.Elihash | src/elihash.c:31-85 | for num_blocks >= 1, the final state is the initial state XOR the in-order fold of the contributions of blocks 0 .. num_blocks-2, for either value of parallel |
| Elihash.FoldStep | src/elihash.c:74-83 | folding one more block XORs one more contribution into the accumulator |
| Elihash.FoldIgnoresLaterBlocks | src/elihash.c:74-78 | the fold over n blocks depends only on the first 16n bytes, so elihash never reads the last block |
| Blocks.XorRangeSplit | src/elihash.c:40-50 | the XOR over an index range splits at any midpoint |
| Elihash.ChunksCover | src/elihash.c:40-50 | the XORs of contiguous chunks of the iteration range XOR together to the XOR of the whole range |
| Elihash.MergeIsXorAll | src/elihash.c:51-57 | merging partial states one after another XORs the state with the XOR of all of them |
| Blocks.XorAllPermutation | src/elihash.c:51-57 | any permutation of the partial states has the same XOR, so the order of the critical sections does not matter |
| Blocks.XorAllRemove | src/elihash.c:51-57 | taking one part out of an XOR and XOR-ing it in front gives the same value |
| Elihash.ParallelMatchesSequential | src/elihash.c:36-58 | splitting the iterations into contiguous chunks, folding each into a private zero state and merging the states in any order gives the sequential state |
| Elihash.PrecomputeSubkeys | src/elihash.c:87-96 | for max_blocks < 2^32 - 1, bytes 0 .. 16 max_blocks hold h(1) .. h(max_blocks) end to end (SubkeyTable) and no later byte changes |
| Elihash.StoreEntry | src/elihash.c:92-94 | iteration i stores h(i) at the corrected offset, bytes 16(i-1) .. 16i, and keeps every other byte |
| Blocks.StoreNext | src/elihash.c:90-95 | storing entry k after the first k-1 entries extends the flattened prefix by one block and keeps the bytes after it |
| Blocks.FlattenPrefix | src/elihash.c:94 | the first 16k bytes of a flattened table are the first k entries flattened |
| Blocks.FlattenEntry | src/elihash.c:94 | entry k of a flattened table sits at bytes 16k .. 16k+16 |
| Elihash.SubkeyTableEntry | src/elihash.c:87-95 | entry c-1 of the table for n counters is h(c), for 1 <= c <= n |
| Elihash.CacheEquivalence | src/elihash.c:7-16 | with the corrected table `SubkeyTable` for at least n counters (what precompute_subkeys builds when max_blocks <= 2^28), the fold over n blocks equals the fold with h computed on the fly |
| Elihash.WrappedOffset | src/elihash.c:9 | the 32-bit offset (counter-1)*BLOCK_SIZE mod 2^32 never exceeds the intended 16(counter-1) |
| Elihash.TableAsWritten | src/elihash.c:90-95 | the table the loop writes with wrapped offsets has the length of the buffer |
| Elihash.AsWrittenBelowWrap | src/elihash.c:90-95 | for up to 2^28 counters, the table as written is SubkeyTable followed by the untouched bytes |
| Elihash.OffsetWraps | src/elihash.c:94 | with max_blocks = 2^28+1, the write for counter 2^28+1 lands on offset 0, so hash_h reads h(2^28+1) for counter 1. The intended table holds h(1) there, whose counter block differs |
| Elimac.NumBlocks | src/elimac.c:16 | num_blocks = padded_len / 16 is at least 1, and 16 num_blocks is the padded length |
| Elimac.Tag | src/elimac.c:62-65 | the tag has t/8 bytes |
| Elimac.Schedules | src/elimac.c:25-28 | the three buffers hold KeyExpansion(key1, 7), KeyExpansion(key1, 4) and KeyExpansion(key2, 10) |
| Elimac.BuildTable | src/elimac.c:31-42 | a table exists if and only if precompute is set and max_blocks > 0; it then holds SubkeyTable for max_blocks counters |
| Elimac.HashState | src/elimac.c:48 | the elihash call XORs into the state the fold with on-the-fly subkeys, whether hash_h reads the table or not |
| Elimac.FoldState | src/elimac.c:44-48 | after the table, the zeroed state and elihash, the state is the fold of blocks 0 .. n-2 |
| Elimac.LastBlock | src/elimac.c:51-57 | the last-block loop XORs block n-1 into the state |
| Elimac.Digest | src/elimac.c:44-57 | the state before the final encryption is FinalState: the fold XOR the last block |
| Elimac.FinishTag | src/elimac.c:61-62 | final is AES-10 of the state under the key2 schedule |
| Elimac.TagOf | src/elimac.c:24-62 | final is TagBlock(key1, key2, padded, num_blocks) |
| Elimac.CopyTag | src/elimac.c:65 | the first n bytes of tag become those of final; the rest of tag is kept |
| Elimac.Elimac | src/elimac.c:3-71 | -1 with tag unchanged when t is outside [0, 128] or num_blocks > 2^32. Otherwise 0, tag[..t/8] is Tag(key1, key2, message, t) and the rest of tag is unchanged. The tag does not depend on parallel. For the corrected table offsets it does not depend on precompute or max_blocks either. Any variant is accepted for a single-block message with no table |
| Elimac.TagTruncation | src/elimac.c:62-65 | the t-bit tag is the first t/8 bytes of the t'-bit tag for t <= t', and the 128-bit tag is the whole block |
| Elimac.SingleBlockTag | src/elimac.c:45-62 | a message shorter than 16 bytes has one padded block, and for any variant, valid or not, its tag is AES-10 under key2 of the padded block: key1 and the variant play no part |
| Elimac.EmptyMessageTag | src/elimac.c:45-62 | for any variant, the empty message's tag is the first t/8 bytes of AES-10 under key2 of 0x80 followed by 15 zero bytes |
| Mem.MemCpy | src/utils.c:147 | memcpy: the destination range receives the source bytes and no other byte changes |
| Mem.MemSet | src/utils.c:149 | memset: the range receives the value and no other byte changes |

## Left out

- **I/O.** The `fprintf(stderr, ...)` diagnostics are not modelled, and neither are `print_tag` and `generate_random_message` (file output and the C library's random number generator).
- **Threads.** The OpenMP region of elihash (src/elihash.c:36-58) is not modelled as threads. `Elihash.ParallelMatchesSequential` states its meaning for any contiguous chunking, as a static `omp for` schedule makes, and any merge order. The method runs the sequential loop for both values of `parallel`. The non-OpenMP fallback is the same loop.
- **Allocation failure.** `malloc` failure in pad_message and elimac (src/utils.c:142-146, src/elimac.c:35-40) is not modelled: allocation always succeeds. `free` is not modelled.
- **Unused return codes.** elimac ignores pad_message's return code (src/elimac.c:15) and the three return codes of aes_key_schedule (src/elimac.c:26-28). The model calls `Utils.PadMessage` with a non-null message and `Utils.AesKeySchedule` with non-null keys and buffers, so every call succeeds.
- **Null pointers.** Apart from `subkeys`, the pointer arguments of elimac, hash_h, hash_i, elihash and precompute_subkeys are non-null arrays. Each is either dereferenced without a check, or passed to a callee whose null test fails silently and whose failure the caller ignores: `key1` and `key2` reach aes_key_schedule (src/utils.c:45), which returns -1 unheeded at src/elimac.c:26-28; `message` reaches pad_message (src/utils.c:134), whose return is ignored; the round keys of hash_h, hash_i, elihash and precompute_subkeys, and hash_i's `output`, reach aes_encrypt, which returns silently on null (src/utils.c:73). The model requires them non-null. Null is modelled (`array?`) only where the C code tests for it: aes_key_schedule, aes_encrypt, encode_counter, pad_message and the `subkeys` table of hash_h (src/elihash.c:7). elimac passes a null table when it builds none (src/elimac.c:31). elihash passes the table on to hash_h, so `Elihash.HashH`, `Elihash.Elihash`, `Elimac.BuildTable` and `Elimac.HashState` take `subkeys` as `array?`. pad_message's `padded` and `padded_len` out-pointers are return values here, so they cannot be null.
- **Unused `key` parameters.** The `key` parameters of hash_h, elihash and precompute_subkeys are never read and are dropped.
- **Uninitialised buffer.** With an unknown variant, encode_counter fails, and hash_h and precompute_subkeys ignore the failure and encrypt an uninitialised buffer. The model requires a valid variant wherever a counter is encoded for encryption: in hash_h without a table, in precompute_subkeys, and in elihash and elimac when the message has two blocks or more or a table is built.
- **Loop-counter wrap.** precompute_subkeys loops forever when max_blocks >= 2^32 - 1, because its uint32_t counter wraps. `Elihash.PrecomputeSubkeys` and `Elimac.Elimac` require max_blocks < 2^32 - 1 whenever a table is built.
- **Out-of-bounds table read.** The read of src/elihash.c:9 goes out of bounds for a table with fewer than num_blocks - 1 entries. `Elimac.Elimac` requires max_blocks >= num_blocks - 1 whenever a table is built.
- **Aliasing.** Overlapping buffers are excluded by `!=` preconditions where the C code would read a buffer it is writing. `Utils.AesEncrypt` allows the input to be the output, as AES-NI does.
- **size_t overflow.** `size_t` arithmetic on the message length (len + 16) is not bounded: lengths are unbounded naturals.
- **S-box parameter.** The key expansion is proved for any 256-entry substitution table. aes_key_schedule passes the FIPS 197 S-box, `Aes.SBox`, which is written out from src/utils.c:4-36.
- **Headers.** The headers under src/headers are not part of this model, beyond the constants BLOCK_SIZE, KEY_SIZE and MAX_BLOCKS of src/headers/elimac.h:12-14. The driver programs (src/main.c, src/main_csv.c, main.c), analyze_csv.py and the stale utils.c at the repository root are not part of this model either.
- Elihash.HashH: the table read uses the corrected offset 16(counter-1), not the 32-bit offset of src/elihash.c:9, which wraps for counter > 2^28. The wrap is modelled separately, under Findings.
- Elihash.PrecomputeSubkeys: the stores use the corrected offsets 16(i-1), not the 32-bit offsets of src/elihash.c:94, which wrap for i > 2^28. The wrap is modelled separately, under Findings.
- Elihash.StoreEntry: stores h(i) at the corrected offset 16(i-1), not at the 32-bit offset of src/elihash.c:94, which wraps for i > 2^28. The wrap is modelled separately, under Findings.
- Elihash.HOf: the table is read at the corrected offset 16(c-1). The C code's 32-bit offset wraps for c > 2^28 (Findings).
- Elihash.TermOf: the contribution uses the table read at the corrected offset 16(c-1). The C code's 32-bit offset wraps for c > 2^28 (Findings).
- Elihash.Absorb: the contribution XORed in uses the table read at the corrected offset 16(c-1). The C code's 32-bit offset wraps for c > 2^28 (Findings).
- Elihash.Elihash: with a table, the fold reads entry c-1 at the corrected offset 16(c-1). The C code's 32-bit offset wraps once num_blocks - 1 > 2^28 (Findings).
- Elihash.CacheEquivalence: is proved for the corrected table `SubkeyTable`, which precompute_subkeys builds only when max_blocks <= 2^28. Above that, the C code's wrapped stores give a different table (Findings).
- Elimac.BuildTable: ensures `SubkeyTable`, stored at the corrected offsets 16(i-1). The C code's 32-bit offsets wrap for 2^28 < max_blocks, and then entry 0 and others are overwritten (Findings).
- Elimac.HashState: the table is read at the corrected offsets 16(c-1). The C code's 32-bit offsets wrap once num_blocks - 1 > 2^28 (Findings).
- Elimac.FoldState: the table is stored and read at the corrected offsets 16(c-1). The C code's 32-bit offsets wrap for 2^28 < max_blocks (Findings).
- Elimac.Digest: the table is stored and read at the corrected offsets 16(c-1). The C code's 32-bit offsets wrap for 2^28 < max_blocks (Findings).
- Elimac.TagOf: the table is stored and read at the corrected offsets 16(c-1). The C code's 32-bit offsets wrap for 2^28 < max_blocks (Findings).
- Elimac.Elimac: the tag is proved for the corrected table offsets. When precompute is set and 2^28 < max_blocks < 2^32 - 1, the 32-bit offsets of the C code give a different table. Each counter c <= max_blocks - 2^28 reads h(c'), where c' is the largest counter <= max_blocks with c' = c (mod 2^28), instead of h(c). Counter 1 is one of these, so block 0's contribution changes, and a two-block message gets a different tag because AES is a permutation. The model does not prove AES to be a permutation. For longer messages several contributions change, and the model claims nothing about their XOR (Findings).

## Findings

| source | as written | input that shows it | evidently intended | confidence | as-written member | corrected member |
|---|---|---|---|---|---|---|
| src/elihash.c:94 | `(i - 1) * BLOCK_SIZE` is computed in 32-bit unsigned arithmetic, because i is a uint32_t, so the store offset wraps modulo 2^32 once i > 2^28. hash_h reads with the same wrapped offset (src/elihash.c:9). | precompute = 1, max_blocks = 2^28 + 1: counter 2^28 + 1 is stored at offset 0, over entry 0. Any message of two blocks or more, such as a 16-byte message, then reads h(2^28 + 1) for counter 1 and gets a wrong tag. | entry i-1 at byte offset 16(i-1) in full size_t width, so entry c-1 is h(c) for every c <= max_blocks | not executed | Elihash.OffsetWraps | Elihash.PrecomputeSubkeys |
