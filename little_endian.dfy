/** Little-endian interpretation of bytes as 64-bit words, as the `W64` helper
    of siphash.c performs it: the eight bytes at offset 8*I are read with the
    least significant byte first, whatever the host byte order. */
module LittleEndian {

  type byte = bv8

  /** Byte `k` (0 = least significant) of the word `w`. */
  function ByteOf(w: bv64, k: nat): byte
    requires k < 8
  {
    var shifted := match k
      case 0 => w
      case 1 => w >> 8
      case 2 => w >> 16
      case 3 => w >> 24
      case 4 => w >> 32
      case 5 => w >> 40
      case 6 => w >> 48
      case _ => w >> 56;
    (shifted & 0xff) as byte
  }

  /** Little-endian fold of at most eight bytes: the first byte is the least
      significant one, and missing high bytes are zero. */
  function LoadLE(s: seq<byte>): bv64
    requires |s| <= 8
    decreases |s|
  {
    if s == [] then 0 else (s[0] as bv64) | (LoadLE(s[1..]) << 8)
  }

  /** The eight bytes of `w`, least significant first. */
  function StoreLE(w: bv64): (s: seq<byte>)
    ensures |s| == 8
    ensures forall k :: 0 <= k < 8 ==> s[k] == ByteOf(w, k)
  {
    [ByteOf(w, 0), ByteOf(w, 1), ByteOf(w, 2), ByteOf(w, 3),
     ByteOf(w, 4), ByteOf(w, 5), ByteOf(w, 6), ByteOf(w, 7)]
  }

  /** Shifting a word left by one byte moves byte k-1 to byte k and puts the
      new low byte in place 0. */
  lemma ByteOfShifted(b: byte, w: bv64, k: nat)
    requires k < 8
    ensures ByteOf((b as bv64) | (w << 8), k) == if k == 0 then b else ByteOf(w, k - 1)
  {
  }

  /** Byte k of the fold is the k-th input byte, and zero past the input. */
  lemma {:induction false} ByteOfLoadLE(s: seq<byte>, k: nat)
    requires |s| <= 8 && k < 8
    ensures ByteOf(LoadLE(s), k) == if k < |s| then s[k] else 0
  {
    if s == [] {
      assert LoadLE(s) == 0;
    } else {
      ByteOfShifted(s[0], LoadLE(s[1..]), k);
      if k > 0 {
        ByteOfLoadLE(s[1..], k - 1);
      }
    }
  }

  /** A word is determined by its eight bytes. */
  lemma BytesDetermineWord(w: bv64, u: bv64)
    requires forall k :: 0 <= k < 8 ==> ByteOf(w, k) == ByteOf(u, k)
    ensures w == u
  {
    assert ByteOf(w, 0) == ByteOf(u, 0) && ByteOf(w, 1) == ByteOf(u, 1);
    assert ByteOf(w, 2) == ByteOf(u, 2) && ByteOf(w, 3) == ByteOf(u, 3);
    assert ByteOf(w, 4) == ByteOf(u, 4) && ByteOf(w, 5) == ByteOf(u, 5);
    assert ByteOf(w, 6) == ByteOf(u, 6) && ByteOf(w, 7) == ByteOf(u, 7);
  }

  /** Reading eight bytes and writing the word back gives the same bytes. */
  lemma StoreLoad(s: seq<byte>)
    requires |s| == 8
    ensures StoreLE(LoadLE(s)) == s
  {
    forall k | 0 <= k < 8
      ensures StoreLE(LoadLE(s))[k] == s[k]
    {
      ByteOfLoadLE(s, k);
    }
  }

  /** Writing a word as bytes and reading them back gives the same word. */
  lemma LoadStore(w: bv64)
    ensures LoadLE(StoreLE(w)) == w
  {
    forall k | 0 <= k < 8
      ensures ByteOf(LoadLE(StoreLE(w)), k) == ByteOf(w, k)
    {
      ByteOfLoadLE(StoreLE(w), k);
    }
    BytesDetermineWord(LoadLE(StoreLE(w)), w);
  }

  /** `W64(p, I)`: the I-th aligned eight-byte group of `p`, read little-endian. */
  function W64(p: seq<byte>, i: nat): bv64
    requires 8 * i + 8 <= |p|
  {
    LoadLE(p[8 * i .. 8 * i + 8])
  }

  /** The bytes of `W64(p, I)` are exactly p[8*I .. 8*I+8], least significant
      first: no other byte of `p` is read, and none is lost. */
  lemma W64Bytes(p: seq<byte>, i: nat)
    requires 8 * i + 8 <= |p|
    ensures StoreLE(W64(p, i)) == p[8 * i .. 8 * i + 8]
  {
    StoreLoad(p[8 * i .. 8 * i + 8]);
  }

  /** Eight bytes placed in a word, the first as the least significant. */
  function Lanes(b0: byte, b1: byte, b2: byte, b3: byte, b4: byte, b5: byte, b6: byte, b7: byte): bv64
  {
    (b0 as bv64) | ((b1 as bv64) << 8) | ((b2 as bv64) << 16) | ((b3 as bv64) << 24)
    | ((b4 as bv64) << 32) | ((b5 as bv64) << 40) | ((b6 as bv64) << 48) | ((b7 as bv64) << 56)
  }

  /** Byte k of Lanes is its k-th argument. */
  lemma ByteOfLanes(b0: byte, b1: byte, b2: byte, b3: byte, b4: byte, b5: byte, b6: byte, b7: byte)
    ensures ByteOf(Lanes(b0, b1, b2, b3, b4, b5, b6, b7), 0) == b0
    ensures ByteOf(Lanes(b0, b1, b2, b3, b4, b5, b6, b7), 1) == b1
    ensures ByteOf(Lanes(b0, b1, b2, b3, b4, b5, b6, b7), 2) == b2
    ensures ByteOf(Lanes(b0, b1, b2, b3, b4, b5, b6, b7), 3) == b3
    ensures ByteOf(Lanes(b0, b1, b2, b3, b4, b5, b6, b7), 4) == b4
    ensures ByteOf(Lanes(b0, b1, b2, b3, b4, b5, b6, b7), 5) == b5
    ensures ByteOf(Lanes(b0, b1, b2, b3, b4, b5, b6, b7), 6) == b6
    ensures ByteOf(Lanes(b0, b1, b2, b3, b4, b5, b6, b7), 7) == b7
  {
  }

  /** The fold of exactly eight bytes written out as the OR of shifted bytes,
      the form in which siphash.c assembles its final word. */
  lemma LoadLEExplicit(s: seq<byte>)
    requires |s| == 8
    ensures LoadLE(s) == Lanes(s[0], s[1], s[2], s[3], s[4], s[5], s[6], s[7])
  {
    var e := Lanes(s[0], s[1], s[2], s[3], s[4], s[5], s[6], s[7]);
    ByteOfLanes(s[0], s[1], s[2], s[3], s[4], s[5], s[6], s[7]);
    forall k | 0 <= k < 8
      ensures ByteOf(LoadLE(s), k) == ByteOf(e, k)
    {
      ByteOfLoadLE(s, k);
    }
    BytesDetermineWord(LoadLE(s), e);
  }

  /** `w |= (u64) b << shift`: one byte ORed into a word. */
  function OrByte(w: bv64, b: byte, shift: bv64): bv64
    requires shift < 64
  {
    w | ((b as bv64) << shift)
  }

  /** ORing in a zero byte changes nothing. */
  lemma OrZeroByte(w: bv64, shift: bv64)
    requires shift < 64
    ensures OrByte(w, 0, shift) == w
  {
  }

  /** Eight bytes ORed in from the most significant down assemble the same
      word as placing them least significant first. */
  lemma HighFirst(b0: byte, b1: byte, b2: byte, b3: byte, b4: byte, b5: byte, b6: byte, b7: byte)
    ensures OrByte(OrByte(OrByte(OrByte(OrByte(OrByte(OrByte((b7 as bv64) << 56, b6, 48), b5, 40),
              b4, 32), b3, 24), b2, 16), b1, 8), b0, 0)
         == Lanes(b0, b1, b2, b3, b4, b5, b6, b7)
  {
  }

  /** The fold of exactly eight bytes, assembled from the most significant
      byte down. */
  lemma LoadLEHighFirst(s: seq<byte>)
    requires |s| == 8
    ensures LoadLE(s) == OrByte(OrByte(OrByte(OrByte(OrByte(OrByte(OrByte((s[7] as bv64) << 56,
      s[6], 48), s[5], 40), s[4], 32), s[3], 24), s[2], 16), s[1], 8), s[0], 0)
  {
    LoadLEExplicit(s);
    HighFirst(s[0], s[1], s[2], s[3], s[4], s[5], s[6], s[7]);
  }
}
