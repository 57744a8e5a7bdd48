# SipHash-2-4 (ccan/siphash) in Dafny

This project models `siphash_2_4` from ccan/siphash/siphash.c, the keyed
64-bit hash SipHash-2-4 over a byte message and a 16-byte key. It is split
into five modules:

- `Word64` (word64.dfy): `uint64_t` addition and subtraction modulo 2^64,
  xor, and the `rol` macro, with their inverse laws. `rol` is proved to be a
  true rotation for each amount the rounds use.
- `LittleEndian` (little_endian.dfy): the `W64` helper, which reads eight
  bytes as a little-endian word, together with the byte-level facts about it.
- `SipHashSpec` (siphash_spec.dfy): the algorithm as pure functions over
  the permutation words v0..v3 under their standard names. It covers the key
  schedule, `SipRound`, the per-block `Compress`, the block fold `Absorb`,
  the final word `TailWord` and `Finalize`. On top of these it states:
  - SipRound agrees with the round as the SipHash paper writes it, and is a
    permutation;
  - Compress is a bijection for a fixed word;
  - the block-loop-plus-epilogue structure equals the paper's padded-message
    definition.
- `SipHashVectors` (vectors.dfy): two known answers for the key 00..0f. The
  empty message is the first entry of the test-vector table of the reference
  implementation. The 15-byte message 00..0e is the worked example of
  appendix A of the SipHash paper.
- `SipHashArray` (siphash.dfy): `siphash_2_4` as the C code runs it. The
  state is a five-word `array<bv64>` updated in place, with its slots in the
  order of `enum sip_index` (A=0, C=1, B=2, D=3, E=4).
  - The methods that change the array are proved against the pure
    functions of `SipHashSpec` through `View`, which reads the array's enum
    slots as the standard names v0..v3.
  - `OrTail` is proved equal to the closed OR chain of the fall-through
    switch, with zero past the tail. `Epilogue` is proved equal to
    `SipHashSpec.TailWord`.
  - `SipHash24` returns exactly `SipHashSpec.SipHash`.

The four seed words in siphash.c:38-41 are the text
"somepseudorandomlygeneratedbytes" read **big-endian**: the first character
is in the most significant byte. `SipHashSpec.SeedsSpellText` states this
byte by byte.

## Model

| member | source | states |
|---|---|---|
| Word64.SubAdd | ccan/siphash/siphash.c:16-17 | subtracting the word that `+=` added gives back the original word, so the modular addition of a half-round loses nothing |
| Word64.AddSub | ccan/siphash/siphash.c:16-17 | adding back the subtracted word gives back the original, the other direction of the same inverse law |
| Word64.XorCancel | ccan/siphash/siphash.c:18-19 | xoring the same word twice cancels it, on either side |
| Word64.RolRotates | ccan/siphash/siphash.c:13 | for the amounts 13, 16, 17, 21 and 32 used by SIP_ROUND, `rol` equals a true left rotation |
| Word64.RotateInverse13 | ccan/siphash/siphash.c:13 | rotating right by 13 undoes `rol(x,13)`, and `rol` by 13 undoes the right rotation |
| Word64.RotateInverse16 | ccan/siphash/siphash.c:13 | the same inverse law for amount 16 |
| Word64.RotateInverse17 | ccan/siphash/siphash.c:13 | the same inverse law for amount 17 |
| Word64.RotateInverse21 | ccan/siphash/siphash.c:13 | the same inverse law for amount 21 |
| Word64.RotateInverse32 | ccan/siphash/siphash.c:13 | the same inverse law for amount 32, and `rol(rol(x,32),32) == x`: rotating by half the word twice is the identity |
| LittleEndian.ByteOfLoadLE | ccan/siphash/siphash.c:29-34 | byte k of the little-endian fold is input byte k, or zero past the input |
| LittleEndian.BytesDetermineWord | ccan/siphash/siphash.c:29-34 | two words with the same eight bytes are equal |
| LittleEndian.StoreLoad | ccan/siphash/siphash.c:29-34 | reading eight bytes as a word and writing it back gives the same bytes |
| LittleEndian.LoadStore | ccan/siphash/siphash.c:29-34 | writing a word as bytes and reading them back gives the same word |
| LittleEndian.W64Bytes | ccan/siphash/siphash.c:29-34 | `W64(p, I)` is exactly the bytes p[8I..8I+8], least significant first |
| LittleEndian.ByteOfLanes | ccan/siphash/siphash.c:49-57 | in the OR of eight shifted bytes, byte k of the result is the k-th byte |
| LittleEndian.LoadLEExplicit | ccan/siphash/siphash.c:29-34 | the little-endian fold of eight bytes equals their OR at shifts 0, 8, …, 56 |
| LittleEndian.OrZeroByte | ccan/siphash/siphash.c:51-57 | ORing in a zero byte leaves the word unchanged |
| LittleEndian.HighFirst | ccan/siphash/siphash.c:49-57 | ORing the bytes in from the top byte down, as the epilogue does, assembles the same word as the little-endian placement |
| LittleEndian.LoadLEHighFirst | ccan/siphash/siphash.c:49-57 | the little-endian reading of an eight-byte block equals the epilogue's top-down OR chain over it |
| SipHashSpec.SeedsSpellText | ccan/siphash/siphash.c:38-41 | byte 7-k of each seed word is character 8i+k of "somepseudorandomlygeneratedbytes" |
| SipHashSpec.SipRoundIsReference | ccan/siphash/siphash.c:13-26 | the two half-rounds with the `rol` macro, v0 and v2 swapping places between them, compute the paper's SipRound written with true rotations |
| SipHashSpec.InverseAfterReference | ccan/siphash/siphash.c:15-26 | InverseSipRound undoes the round |
| SipHashSpec.ReferenceAfterInverse | ccan/siphash/siphash.c:15-26 | the round undoes InverseSipRound |
| SipHashSpec.SipRoundBijective | ccan/siphash/siphash.c:22-26 | SIP_ROUND is a permutation of the state, with InverseSipRound as its inverse on both sides |
| SipHashSpec.CompressBijective | ccan/siphash/siphash.c:70-74 | for a fixed message word, absorbing the word (v3 ^= m, two rounds, v0 ^= m) is a bijection on states |
| SipHashSpec.Blocks | ccan/siphash/siphash.c:69-70 | the message has len/8 complete blocks, block j being `W64(in, j)` |
| SipHashSpec.AbsorbAppend | ccan/siphash/siphash.c:69-75 | absorbing one more block after a prefix is compressing it into the state the prefix left |
| SipHashSpec.AbsorbNextBlock | ccan/siphash/siphash.c:69-75 | one iteration of the loop extends the fold over blocks 0..j-1 by block j |
| SipHashSpec.Tail | ccan/siphash/siphash.c:48 | after skipping `len & ~7` bytes, `len mod 8` bytes remain |
| SipHashSpec.FinalBlock | ccan/siphash/siphash.c:45-60 | the final block has exactly eight bytes |
| SipHashSpec.TailWordBytes | ccan/siphash/siphash.c:45-60 | in the epilogue word, the top byte is `len & 255`, bytes below `len & 7` are the tail bytes in order, and the rest are zero |
| SipHashSpec.TailWordSeparatesLengths | ccan/siphash/siphash.c:49 | messages whose lengths differ modulo 256 have different final words |
| SipHashSpec.TailWordAligned | ccan/siphash/siphash.c:49-50 | when the length is a multiple of 8, the epilogue word is `(len & 255) << 56` |
| SipHashSpec.Padded | ccan/siphash/siphash.c:45-60 | the padded message is a whole number of blocks, one more than the message's complete blocks |
| SipHashSpec.PaddedBlocks | ccan/siphash/siphash.c:69-81 | the blocks of the padded message are the message's complete blocks followed by the epilogue word |
| SipHashSpec.SipHashIsReference | ccan/siphash/siphash.c:62-91 | the block loop followed by the separate epilogue absorption equals the padded-message SipHash of the paper |
| SipHashVectors.LowWord | ccan/siphash/siphash.c:29-34 | bytes 00..07 read as 0x0706050403020100 |
| SipHashVectors.HighWord | ccan/siphash/siphash.c:29-34 | bytes 08..0f read as 0x0f0e0d0c0b0a0908 |
| SipHashVectors.TestInitial | ccan/siphash/siphash.c:36-43 | the initial state for the key 00..0f |
| SipHashVectors.EmptyCompress0 | ccan/siphash/siphash.c:78-81 | the state after absorbing the empty message's final word |
| SipHashVectors.EmptyFinalize | ccan/siphash/siphash.c:83-90 | the finalisation of that state is 0x726fdb47dd0e0e31 |
| SipHashVectors.FifteenCompress0 | ccan/siphash/siphash.c:70-74 | the state after the 15-byte message's one complete block |
| SipHashVectors.FifteenCompress1 | ccan/siphash/siphash.c:78-81 | the state after the 15-byte message's final word |
| SipHashVectors.FifteenFinalize | ccan/siphash/siphash.c:83-90 | the finalisation of that state is 0xa129ca6149be45e5 |
| SipHashVectors.EmptyMessageWords | ccan/siphash/siphash.c:45-60 | the empty message has no complete block and the final word 0 |
| SipHashVectors.TestMessageBlocks | ccan/siphash/siphash.c:69-70 | the 15-byte message 00..0e has the one block 0x0706050403020100 |
| SipHashVectors.TestMessageTailWord | ccan/siphash/siphash.c:45-60 | its final word is bytes 08..0e with the length 15 on top, 0x0f0e0d0c0b0a0908 |
| SipHashVectors.FifteenAbsorb | ccan/siphash/siphash.c:69-75 | the block loop's state for the 15-byte message |
| SipHashVectors.EmptyMessageVector | ccan/siphash/siphash.c:62-91 | SipHash-2-4 of the empty message under key 00..0f is 0x726fdb47dd0e0e31 |
| SipHashVectors.FifteenByteVector | ccan/siphash/siphash.c:62-91 | SipHash-2-4 of the message 00..0e under key 00..0f is 0xa129ca6149be45e5 |
| SipHashArray.Layout | ccan/siphash/siphash.c:11 | the array for a state and message word has five slots |
| SipHashArray.ViewLayout | ccan/siphash/siphash.c:11 | storing a state in the enum slots and reading it back gives the same state and message word |
| SipHashArray.LayoutView | ccan/siphash/siphash.c:11 | every five-word array is the layout of its own view, so the enum order is a bijection |
| SipHashArray.SipInit | ccan/siphash/siphash.c:36-43 | each slot holds its key half xored with its seed constant, v[E] is 0, and the array holds the initial state |
| SipHashArray.HalfRoundInPlace | ccan/siphash/siphash.c:15-20 | on four distinct slots the array's new words are HalfRound of the old ones, and v[E] is unchanged |
| SipHashArray.SipRoundInPlace | ccan/siphash/siphash.c:22-26 | on the array, SIP_ROUND is SipRound of the standard names, with v[E] unchanged |
| SipHashArray.OrTail | ccan/siphash/siphash.c:50-59 | the fall-through switch ORs byte k of the tail in at bits 8k, from byte 6 down, and zero where there is no byte |
| SipHashArray.Epilogue | ccan/siphash/siphash.c:45-60 | the word built is the final word: the tail bytes little-endian and `len & 255` in the top byte |
| SipHashArray.CompressInPlace | ccan/siphash/siphash.c:70-74 | storing w in v[E] and absorbing it changes the view by Compress, and leaves w in v[E] |
| SipHashArray.FinalizeInPlace | ccan/siphash/siphash.c:83-90 | the returned word is Finalize of the array's state on entry; the view is left as v2 ^= 0xff followed by four SipRounds of it, and v[E] is unchanged |
| SipHashArray.AbsorbStep | ccan/siphash/siphash.c:70-74 | one loop iteration: after the first j blocks, absorbing block j gives the fold over the first j+1 blocks and leaves block j in v[E] |
| SipHashArray.AbsorbBlocks | ccan/siphash/siphash.c:69-75 | the loop absorbs the len/8 blocks in order: the view becomes the fold Absorb over Blocks(msg), and v[E] holds the last block, or its entry value when len < 8 |
| SipHashArray.SipHash24 | ccan/siphash/siphash.c:62-91 | siphash_2_4 returns SipHash(msg, key) |

## Left out

- `le64_to_cpu` and `memcpy` in `W64`: host byte order is not modelled. Bytes are read little-endian directly, which is what the conversion achieves on every host.
- Key length: the C signature fixes the key at 16 bytes. Here `|key| == 16` is a precondition.
- The length is an unbounded natural number, not a `size_t`. A length of 2^64 or more, which could not occur in C, is not excluded. `len & 255`, `len & ~7` and `len & 7` are written as `len % 256`, `len - len % 8` and `len % 8`, which equal them for every non-negative length.
- Word64.RolRotates: proved only for the five rotation amounts SIP_ROUND uses, not for every amount between 1 and 63.
- Epilogue: the pointer advance `in += len & ~7` is modelled as a slice of the message. The result is returned rather than written through the `u64 *m` pointer; `SipHash24` stores it in `v[E]` through `CompressInPlace`.
- Cryptographic strength, constant-time behaviour and timing are not modelled.
- The public header and any other file of the library are not part of this model.
