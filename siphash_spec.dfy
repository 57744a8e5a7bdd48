/** SipHash-2-4 as a pure function over the four permutation words v0..v3
    under their standard names, following the arithmetic of
    ccan/siphash/siphash.c: key schedule, per-block compression, a final word
    carrying the length, and four finalisation rounds. */
module SipHashSpec {
  import opened LittleEndian
  import opened Word64

  /** The permutation state v0, v1, v2, v3. */
  datatype State = State(v0: bv64, v1: bv64, v2: bv64, v3: bv64)

  /** Key-schedule constants: "somepseudorandomlygeneratedbytes", eight
      characters per word, the first character in the most significant byte. */
  const Seed0: bv64 := 0x736f6d6570736575
  const Seed1: bv64 := 0x646f72616e646f6d
  const Seed2: bv64 := 0x6c7967656e657261
  const Seed3: bv64 := 0x7465646279746573

  /** The 32 ASCII bytes of "somepseudorandomlygeneratedbytes". */
  const SeedText: seq<byte> := [
    0x73, 0x6f, 0x6d, 0x65, 0x70, 0x73, 0x65, 0x75, 0x64, 0x6f, 0x72, 0x61, 0x6e, 0x64, 0x6f, 0x6d,
    0x6c, 0x79, 0x67, 0x65, 0x6e, 0x65, 0x72, 0x61, 0x74, 0x65, 0x64, 0x62, 0x79, 0x74, 0x65, 0x73]

  /** Seed word i spells characters 8i .. 8i+7 of the seed text with the
      first character in the most significant byte (byte 7): a big-endian
      reading of the text. */
  lemma SeedsSpellText(k: nat)
    requires k < 8
    ensures ByteOf(Seed0, 7 - k) == SeedText[k]
    ensures ByteOf(Seed1, 7 - k) == SeedText[8 + k]
    ensures ByteOf(Seed2, 7 - k) == SeedText[16 + k]
    ensures ByteOf(Seed3, 7 - k) == SeedText[24 + k]
  {
  }

  /** The finalisation domain separator xored into v2. */
  const FinalXor: bv64 := 0xff

  // ---------------------------------------------------------------------------
  // The round function

  /** SIP_HALF_ROUND(a, b, c, d, L1, L2) with (a, b, c, d) = (v0, v1, v2, v3):
      a += b; c += d; b = a ^ rol(b, L1); d = c ^ rol(d, L2); a = rol(a, 32). */
  function HalfRound(s: State, l1: bv64, l2: bv64): State
    requires 0 < l1 < 64 && 0 < l2 < 64
  {
    var a := Add(s.v0, s.v1);
    var c := Add(s.v2, s.v3);
    State(Rol(a, 32), Xor(a, Rol(s.v1, l1)), c, Xor(c, Rol(s.v3, l2)))
  }

  /** The same words with the roles of v0 and v2 exchanged. */
  function SwapAC(s: State): State
  {
    State(s.v2, s.v1, s.v0, s.v3)
  }

  /** SIP_ROUND: a half-round with rotations (13, 16), then one with rotations
      (17, 21) in which v2 plays the part of `a` and v0 that of `c`. */
  function SipRound(s: State): State
  {
    SwapAC(HalfRound(SwapAC(HalfRound(s, 13, 16)), 17, 21))
  }

  /** SipRound as section 2 of the SipHash paper (Aumasson and Bernstein,
      2012) writes it: one assignment at a time, with true rotations rather
      than the `rol` macro. */
  function ReferenceSipRound(s: State): State
  {
    var v0 := Add(s.v0, s.v1);
    var v1 := Xor(Rotl(s.v1, 13), v0);
    var v0 := Rotl(v0, 32);
    var v2 := Add(s.v2, s.v3);
    var v3 := Xor(Rotl(s.v3, 16), v2);
    var v0 := Add(v0, v3);
    var v3 := Xor(Rotl(v3, 21), v0);
    var v2 := Add(v2, v1);
    var v1 := Xor(Rotl(v1, 17), v2);
    var v2 := Rotl(v2, 32);
    State(v0, v1, v2, v3)
  }

  /** The reference round undone, last assignment first. */
  function InverseSipRound(s: State): State
  {
    var v2 := Ror(s.v2, 32);
    var v1 := Ror(Xor(s.v1, v2), 17);
    var v2 := Sub(v2, v1);
    var v3 := Ror(Xor(s.v3, s.v0), 21);
    var v0 := Sub(s.v0, v3);
    var v3 := Ror(Xor(v3, v2), 16);
    var v2 := Sub(v2, v3);
    var v0 := Ror(v0, 32);
    var v1 := Ror(Xor(v1, v0), 13);
    var v0 := Sub(v0, v1);
    State(v0, v1, v2, v3)
  }

  /** The half-round formulation of siphash.c, with v0 and v2 trading places
      between the two halves, computes the published SipRound. */
  lemma SipRoundIsReference(s: State)
    ensures SipRound(s) == ReferenceSipRound(s)
  {
    var a := Add(s.v0, s.v1);
    var c := Add(s.v2, s.v3);
    XorComm(a, Rol(s.v1, 13));
    XorComm(c, Rol(s.v3, 16));
    var b1 := Xor(Rol(s.v1, 13), a);
    var d1 := Xor(Rol(s.v3, 16), c);
    XorComm(Add(c, b1), Rol(b1, 17));
    XorComm(Add(Rol(a, 32), d1), Rol(d1, 21));
    // the macro's rotations are the paper's
    RolRotates(s.v1);
    RolRotates(s.v3);
    RolRotates(a);
    RolRotates(b1);
    RolRotates(d1);
    RolRotates(Add(c, b1));
  }

  /** InverseSipRound undoes the reference round. */
  lemma InverseAfterReference(s: State)
    ensures InverseSipRound(ReferenceSipRound(s)) == s
  {
    var a1 := Add(s.v0, s.v1);
    var b1 := Xor(Rol(s.v1, 13), a1);
    var a2 := Rol(a1, 32);
    var c1 := Add(s.v2, s.v3);
    var d1 := Xor(Rol(s.v3, 16), c1);
    var a3 := Add(a2, d1);
    var c2 := Add(c1, b1);
    // the paper's rotations are the macro's
    RolRotates(s.v1);
    RolRotates(a1);
    RolRotates(s.v3);
    RolRotates(d1);
    RolRotates(b1);
    RolRotates(c2);
    // v2, v1 and v2 again, as the inverse recovers them
    RotateInverse32(c2);
    XorCancel(Rol(b1, 17), c2);
    RotateInverse17(b1);
    SubAdd(c1, b1);
    // v3 and v0
    XorCancel(Rol(d1, 21), a3);
    RotateInverse21(d1);
    SubAdd(a2, d1);
    // v3 and v2 of the first half
    XorCancel(Rol(s.v3, 16), c1);
    RotateInverse16(s.v3);
    SubAdd(s.v2, s.v3);
    // v0 and v1 of the first half
    RotateInverse32(a1);
    XorCancel(Rol(s.v1, 13), a1);
    RotateInverse13(s.v1);
    SubAdd(s.v0, s.v1);
  }

  /** The reference round undoes InverseSipRound. */
  lemma ReferenceAfterInverse(r: State)
    ensures ReferenceSipRound(InverseSipRound(r)) == r
  {
    var c2 := Ror(r.v2, 32);
    var b1 := Ror(Xor(r.v1, c2), 17);
    var c1 := Sub(c2, b1);
    var d1 := Ror(Xor(r.v3, r.v0), 21);
    var a2 := Sub(r.v0, d1);
    var s3 := Ror(Xor(d1, c1), 16);
    var s2 := Sub(c1, s3);
    var a1 := Ror(a2, 32);
    var s1 := Ror(Xor(b1, a1), 13);
    var s0 := Sub(a1, s1);
    // the first half-round rebuilds a1, b1, c1 and d1
    AddSub(a1, s1);
    RotateInverse13(Xor(b1, a1));
    XorCancel(b1, a1);
    RotateInverse32(a2);
    AddSub(c1, s3);
    RotateInverse16(Xor(d1, c1));
    XorCancel(d1, c1);
    // the second half-round rebuilds r
    AddSub(r.v0, d1);
    RotateInverse21(Xor(r.v3, r.v0));
    XorCancel(r.v3, r.v0);
    AddSub(c2, b1);
    RotateInverse17(Xor(r.v1, c2));
    XorCancel(r.v1, c2);
    RotateInverse32(r.v2);
    // the paper's rotations are the macro's
    RolRotates(s1);
    RolRotates(a1);
    RolRotates(s3);
    RolRotates(d1);
    RolRotates(b1);
    RolRotates(c2);
  }

  /** SipRound is a permutation of the state: InverseSipRound undoes it on
      both sides. */
  lemma SipRoundBijective(s: State)
    ensures InverseSipRound(SipRound(s)) == s
    ensures SipRound(InverseSipRound(s)) == s
  {
    SipRoundIsReference(s);
    InverseAfterReference(s);
    SipRoundIsReference(InverseSipRound(s));
    ReferenceAfterInverse(s);
  }

  // ---------------------------------------------------------------------------
  // Key schedule, compression and finalisation

  /** siphash_init on the standard names: K0 and K1 are the two little-endian
      halves of the key. */
  function Initial(key: seq<byte>): State
    requires |key| == 16
  {
    var k0 := W64(key, 0);
    var k1 := W64(key, 1);
    State(Xor(k0, Seed0), Xor(k1, Seed1), Xor(k0, Seed2), Xor(k1, Seed3))
  }

  /** Absorbing one message word: v3 ^= m, two SipRounds (the "2" of
      SipHash-2-4), v0 ^= m. */
  function Compress(s: State, m: bv64): State
  {
    var t := SipRound(SipRound(s.(v3 := Xor(s.v3, m))));
    t.(v0 := Xor(t.v0, m))
  }

  /** Compress undone, given the same message word. */
  function Uncompress(s: State, m: bv64): State
  {
    var t := InverseSipRound(InverseSipRound(s.(v0 := Xor(s.v0, m))));
    t.(v3 := Xor(t.v3, m))
  }

  /** For a fixed message word, Compress is a bijection on states: no two
      states collide when the same block is absorbed into them. */
  lemma CompressBijective(s: State, m: bv64)
    ensures Uncompress(Compress(s, m), m) == s
    ensures Compress(Uncompress(s, m), m) == s
  {
    var s1 := s.(v3 := Xor(s.v3, m));
    SipRoundBijective(s1);
    SipRoundBijective(SipRound(s1));
    var t := SipRound(SipRound(s1));
    XorCancel(t.v0, m);
    XorCancel(s.v3, m);
    var u := s.(v0 := Xor(s.v0, m));
    SipRoundBijective(u);
    SipRoundBijective(InverseSipRound(u));
    var w := InverseSipRound(InverseSipRound(u));
    XorCancel(w.v3, m);
    XorCancel(s.v0, m);
  }

  /** The blocks absorbed in order, as a left fold. */
  function Absorb(s: State, blocks: seq<bv64>): State
    decreases |blocks|
  {
    if blocks == [] then s else Absorb(Compress(s, blocks[0]), blocks[1..])
  }

  /** The len/8 complete eight-byte blocks of the message, in order. */
  function Blocks(msg: seq<byte>): (b: seq<bv64>)
    ensures |b| == |msg| / 8
  {
    seq(|msg| / 8, j requires 0 <= j < |msg| / 8 => W64(msg, j))
  }

  /** Absorbing one more block after a prefix is compressing it into the
      state the prefix left. */
  lemma {:induction false} AbsorbAppend(s: State, blocks: seq<bv64>, m: bv64)
    ensures Absorb(s, blocks + [m]) == Compress(Absorb(s, blocks), m)
    decreases |blocks|
  {
    if blocks == [] {
      assert [] + [m] == [m];
      assert Absorb(Compress(s, m), []) == Compress(s, m);
    } else {
      assert (blocks + [m])[1..] == blocks[1..] + [m];
      AbsorbAppend(Compress(s, blocks[0]), blocks[1..], m);
    }
  }

  /** One more iteration of the block loop: absorbing the first j+1 blocks
      is absorbing the first j, then block j. */
  lemma AbsorbNextBlock(s: State, msg: seq<byte>, j: nat)
    requires j < |msg| / 8
    ensures Absorb(s, Blocks(msg)[..j + 1]) == Compress(Absorb(s, Blocks(msg)[..j]), W64(msg, j))
  {
    assert Blocks(msg)[..j + 1] == Blocks(msg)[..j] + [W64(msg, j)];
    AbsorbAppend(s, Blocks(msg)[..j], W64(msg, j));
  }

  /** `len & 255`: the message length modulo 256, as one byte. */
  function LengthByte(len: nat): byte
  {
    (len % 256) as byte
  }

  /** The 0-7 trailing bytes after the last complete block. */
  function Tail(msg: seq<byte>): (t: seq<byte>)
    ensures |t| == |msg| % 8
  {
    msg[|msg| - |msg| % 8 ..]
  }

  /** The final eight-byte block: the tail bytes, zeros, and the length byte. */
  function FinalBlock(msg: seq<byte>): (b: seq<byte>)
    ensures |b| == 8
  {
    Tail(msg) + seq(7 - |msg| % 8, _ => 0) + [LengthByte(|msg|)]
  }

  /** The word siphash_epilogue builds: the final block read little-endian. */
  function TailWord(msg: seq<byte>): bv64
  {
    LoadLE(FinalBlock(msg))
  }

  /** The finalisation: v2 ^= 0xff, four SipRounds (the "4" of SipHash-2-4),
      then v0 ^ v1 ^ v2 ^ v3. */
  function Finalize(s: State): bv64
  {
    var t := FinalRounds(s);
    Xor(Xor(Xor(t.v0, t.v1), t.v2), t.v3)
  }

  /** The state the finalisation leaves behind: v2 ^= 0xff, then four
      SipRounds. */
  function FinalRounds(s: State): State
  {
    SipRound(SipRound(SipRound(SipRound(s.(v2 := Xor(s.v2, FinalXor))))))
  }

  /** siphash_2_4 on (message, key). */
  function SipHash(msg: seq<byte>, key: seq<byte>): bv64
    requires |key| == 16
  {
    Finalize(Compress(Absorb(Initial(key), Blocks(msg)), TailWord(msg)))
  }

  /** SipHash broken into its three stages: the block loop, the final word,
      and finalisation. */
  lemma SipHashStages(msg: seq<byte>, key: seq<byte>, s: State, w: bv64, t: State)
    requires |key| == 16
    requires Absorb(Initial(key), Blocks(msg)) == s
    requires TailWord(msg) == w
    requires Compress(s, w) == t
    ensures SipHash(msg, key) == Finalize(t)
  {
  }

  // ---------------------------------------------------------------------------
  // The final word

  /** The bytes of the final word: the tail bytes first, then zeros, and the
      length modulo 256 in the top byte (bits 56-63). */
  lemma TailWordBytes(msg: seq<byte>, k: nat)
    requires k < 8
    ensures ByteOf(TailWord(msg), k) ==
      if k == 7 then LengthByte(|msg|)
      else if k < |msg| % 8 then msg[|msg| - |msg| % 8 + k]
      else 0
  {
    ByteOfLoadLE(FinalBlock(msg), k);
  }

  /** Messages whose lengths differ modulo 256 have different final words:
      the length byte alone tells them apart. */
  lemma TailWordSeparatesLengths(m1: seq<byte>, m2: seq<byte>)
    requires LengthByte(|m1|) != LengthByte(|m2|)
    ensures TailWord(m1) != TailWord(m2)
  {
    TailWordBytes(m1, 7);
    TailWordBytes(m2, 7);
  }

  /** For a length that is a multiple of 8 the final word is exactly
      `(len & 255) << 56`; in particular it is 0 for the empty message. */
  lemma TailWordAligned(msg: seq<byte>)
    requires |msg| % 8 == 0
    ensures TailWord(msg) == (LengthByte(|msg|) as bv64) << 56
  {
    var b := FinalBlock(msg);
    LoadLEExplicit(b);
    assert b == [0, 0, 0, 0, 0, 0, 0, LengthByte(|msg|)];
  }

  // ---------------------------------------------------------------------------
  // Agreement with the padded-message formulation of the SipHash paper

  /** The message padded as in section 2 of the SipHash paper: zeros up to
      one byte short of a multiple of 8, then the length modulo 256. */
  function Padded(msg: seq<byte>): (p: seq<byte>)
    ensures |p| % 8 == 0 && |p| / 8 == |msg| / 8 + 1
  {
    msg + seq(7 - |msg| % 8, _ => 0) + [LengthByte(|msg|)]
  }

  /** SipHash-2-4 as the paper defines it: every word of the padded message
      is absorbed the same way, with no separate epilogue. */
  function ReferenceSipHash(msg: seq<byte>, key: seq<byte>): bv64
    requires |key| == 16
  {
    Finalize(Absorb(Initial(key), Blocks(Padded(msg))))
  }

  /** The words of the padded message are the complete blocks of the message
      followed by the final word. */
  lemma PaddedBlocks(msg: seq<byte>)
    ensures Blocks(Padded(msg)) == Blocks(msg) + [TailWord(msg)]
  {
    var p := Padded(msg);
    var n := |msg| / 8;
    forall j | 0 <= j < n
      ensures Blocks(p)[j] == Blocks(msg)[j]
    {
      assert p[8 * j .. 8 * j + 8] == msg[8 * j .. 8 * j + 8];
    }
    assert p[8 * n .. 8 * n + 8] == FinalBlock(msg);
  }

  /** The block-loop-plus-epilogue structure of siphash_2_4 computes the
      padded-message definition. */
  lemma SipHashIsReference(msg: seq<byte>, key: seq<byte>)
    requires |key| == 16
    ensures SipHash(msg, key) == ReferenceSipHash(msg, key)
  {
    PaddedBlocks(msg);
    AbsorbAppend(Initial(key), Blocks(msg), TailWord(msg));
  }
}
