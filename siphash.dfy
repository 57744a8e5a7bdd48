/** siphash_2_4 of ccan/siphash/siphash.c as it runs: a five-word state array
    updated in place, with the four permutation words stored in the order of
    `enum sip_index` and the current message word in the fifth slot. */
module SipHashArray {
  import opened LittleEndian
  import opened Word64
  import opened SipHashSpec

  /** The slots of the state array, as `enum sip_index` numbers them: v0 in
      slot 0, v2 in slot 1, v1 in slot 2, v3 in slot 3, the message word in
      slot 4. */
  const A: nat := 0
  const B: nat := 2
  const C: nat := 1
  const D: nat := 3
  const E: nat := 4

  /** The permutation words held by a state array, under their standard names. */
  function View(v: seq<bv64>): State
    requires |v| == 5
  {
    State(v[A], v[B], v[C], v[D])
  }

  /** The state array holding permutation state `s` and message word `m`. */
  function Layout(s: State, m: bv64): (v: seq<bv64>)
    ensures |v| == 5
  {
    [s.v0, s.v2, s.v1, s.v3, m]
  }

  /** Storing a state in the array and reading it back gives the same state
      and message word. */
  lemma ViewLayout(s: State, m: bv64)
    ensures View(Layout(s, m)) == s
    ensures Layout(s, m)[E] == m
  {
  }

  /** Every five-word array is the layout of its own view: the enum order is
      a bijection between arrays and (state, word) pairs. */
  lemma LayoutView(v: seq<bv64>)
    requires |v| == 5
    ensures Layout(View(v), v[E]) == v
  {
  }

  /** siphash_init: the key halves xored with the four seed constants, and
      an empty message slot. */
  method SipInit(v: array<bv64>, key: seq<byte>)
    requires v.Length == 5 && |key| == 16
    modifies v
    ensures v[A] == Xor(W64(key, 0), Seed0)
    ensures v[B] == Xor(W64(key, 1), Seed1)
    ensures v[C] == Xor(W64(key, 0), Seed2)
    ensures v[D] == Xor(W64(key, 1), Seed3)
    ensures v[E] == 0
    ensures v[..] == Layout(Initial(key), 0)
  {
    var k0, k1 := W64(key, 0), W64(key, 1);
    v[A] := Xor(k0, Seed0);
    v[B] := Xor(k1, Seed1);
    v[C] := Xor(k0, Seed2);
    v[D] := Xor(k1, Seed3);
    v[E] := 0;
  }

  /** SIP_HALF_ROUND on four distinct slots of the array; the remaining slot
      is left alone. */
  method HalfRoundInPlace(v: array<bv64>, a: nat, b: nat, c: nat, d: nat, l1: bv64, l2: bv64)
    requires v.Length == 5
    requires a < 4 && b < 4 && c < 4 && d < 4
    requires a != b && a != c && a != d && b != c && b != d && c != d
    requires 0 < l1 < 64 && 0 < l2 < 64
    modifies v
    ensures State(v[a], v[b], v[c], v[d]) ==
      HalfRound(State(old(v[a]), old(v[b]), old(v[c]), old(v[d])), l1, l2)
    ensures v[E] == old(v[E])
  {
    v[a] := Add(v[a], v[b]);
    v[c] := Add(v[c], v[d]);
    v[b] := Xor(v[a], Rol(v[b], l1));
    v[d] := Xor(v[c], Rol(v[d], l2));
    v[a] := Rol(v[a], 32);
  }

  /** SIP_ROUND: the second half-round passes slot C where the first passed
      slot A, which is SipRound on the standard names. */
  method SipRoundInPlace(v: array<bv64>)
    requires v.Length == 5
    modifies v
    ensures View(v[..]) == SipRound(View(old(v[..])))
    ensures v[E] == old(v[E])
  {
    HalfRoundInPlace(v, A, B, C, D, 13, 16);
    HalfRoundInPlace(v, C, B, A, D, 17, 21);
  }

  /** Byte k of the 0-7 tail bytes, or 0 past their end. */
  function TailByte(tail: seq<byte>, k: nat): byte
  {
    if k < |tail| then tail[k] else 0
  }

  /** The fall-through switch of siphash_epilogue: tail bytes |tail|-1 down
      to 0 ORed into `m0`, byte k at bits 8k..8k+7. */
  method OrTail(m0: bv64, tail: seq<byte>) returns (m: bv64)
    requires |tail| < 8
    ensures m == OrByte(OrByte(OrByte(OrByte(OrByte(OrByte(OrByte(m0,
      TailByte(tail, 6), 48), TailByte(tail, 5), 40), TailByte(tail, 4), 32),
      TailByte(tail, 3), 24), TailByte(tail, 2), 16), TailByte(tail, 1), 8), TailByte(tail, 0), 0)
  {
    var r := |tail|;
    m := m0;
    // e is the word the switch has built so far, every byte written out
    ghost var e := m0;
    if r >= 7 { m := OrByte(m, tail[6], 48); } else { OrZeroByte(m, 48); }
    e := OrByte(e, TailByte(tail, 6), 48);
    assert m == e;
    if r >= 6 { m := OrByte(m, tail[5], 40); } else { OrZeroByte(m, 40); }
    e := OrByte(e, TailByte(tail, 5), 40);
    assert m == e;
    if r >= 5 { m := OrByte(m, tail[4], 32); } else { OrZeroByte(m, 32); }
    e := OrByte(e, TailByte(tail, 4), 32);
    assert m == e;
    if r >= 4 { m := OrByte(m, tail[3], 24); } else { OrZeroByte(m, 24); }
    e := OrByte(e, TailByte(tail, 3), 24);
    assert m == e;
    if r >= 3 { m := OrByte(m, tail[2], 16); } else { OrZeroByte(m, 16); }
    e := OrByte(e, TailByte(tail, 2), 16);
    assert m == e;
    if r >= 2 { m := OrByte(m, tail[1], 8); } else { OrZeroByte(m, 8); }
    e := OrByte(e, TailByte(tail, 1), 8);
    assert m == e;
    if r >= 1 { m := OrByte(m, tail[0], 0); } else { OrZeroByte(m, 0); }
    e := OrByte(e, TailByte(tail, 0), 0);
    assert m == e;
  }

  /** siphash_epilogue: the length byte at the top, then the 0-7 bytes after
      the last complete block below it. The result is the final word. */
  method Epilogue(msg: seq<byte>) returns (m: bv64)
    ensures m == TailWord(msg)
  {
    var len := |msg|;
    var tail := msg[len - len % 8..];
    m := (LengthByte(len) as bv64) << 56;
    m := OrTail(m, tail);
    ghost var f := FinalBlock(msg);
    assert tail == Tail(msg);
    assert forall k :: 0 <= k < 7 ==> f[k] == TailByte(tail, k);
    LoadLEHighFirst(f);
  }

  /** Absorbing a message word: store it in slot E, then v[D] ^= v[E], two
      SIP_ROUNDs, v[A] ^= v[E]. siphash_2_4 does this once per complete
      block and once for the epilogue word. */
  method CompressInPlace(v: array<bv64>, w: bv64)
    requires v.Length == 5
    modifies v
    ensures View(v[..]) == Compress(View(old(v[..])), w)
    ensures v[E] == w
  {
    ghost var s := View(v[..]);
    v[E] := w;
    v[D] := Xor(v[D], v[E]);
    assert View(v[..]) == s.(v3 := Xor(s.v3, w));
    SipRoundInPlace(v);
    SipRoundInPlace(v);
    v[A] := Xor(v[A], v[E]);
  }

  /** The finalisation: v[C] ^= 0xff, four SIP_ROUNDs, and the xor of the
      four permutation words. */
  method FinalizeInPlace(v: array<bv64>) returns (h: bv64)
    requires v.Length == 5
    modifies v
    ensures h == Finalize(View(old(v[..])))
    ensures View(v[..]) == FinalRounds(View(old(v[..])))
    ensures v[E] == old(v[E])
  {
    ghost var s := View(v[..]);
    v[C] := Xor(v[C], FinalXor);
    assert View(v[..]) == s.(v2 := Xor(s.v2, FinalXor));
    SipRoundInPlace(v);
    SipRoundInPlace(v);
    SipRoundInPlace(v);
    SipRoundInPlace(v);
    h := Xor(Xor(Xor(v[A], v[B]), v[C]), v[D]);
  }

  /** One iteration of the block loop: block j stored in slot E and absorbed
      into the state the first j blocks left. */
  method AbsorbStep(v: array<bv64>, msg: seq<byte>, j: nat, ghost s: State)
    requires v.Length == 5 && j < |msg| / 8
    requires View(v[..]) == Absorb(s, Blocks(msg)[..j])
    modifies v
    ensures View(v[..]) == Absorb(s, Blocks(msg)[..j + 1])
    ensures v[E] == Blocks(msg)[j]
  {
    CompressInPlace(v, W64(msg, j));
    AbsorbNextBlock(s, msg, j);
  }

  /** The block loop of siphash_2_4: the len/8 complete blocks absorbed in
      order, block j being the eight bytes at offset 8*j. Slot E is left
      holding the last block, or its entry value when there is none. */
  method AbsorbBlocks(v: array<bv64>, msg: seq<byte>)
    requires v.Length == 5
    modifies v
    ensures View(v[..]) == Absorb(View(old(v[..])), Blocks(msg))
    ensures v[E] == if Blocks(msg) == [] then old(v[E]) else Blocks(msg)[|Blocks(msg)| - 1]
  {
    ghost var s := View(v[..]);
    ghost var blocks := Blocks(msg);
    assert blocks[..0] == [];
    var j := 0;
    while j < |msg| / 8
      invariant 0 <= j <= |blocks|
      invariant View(v[..]) == Absorb(s, blocks[..j])
      invariant v[E] == if j == 0 then old(v[E]) else blocks[j - 1]
    {
      AbsorbStep(v, msg, j, s);
      j := j + 1;
    }
    assert blocks[..j] == blocks;
  }

  /** siphash_2_4: initialise from the key, absorb the len/8 complete blocks
      in order, absorb the epilogue word, finalise. The result is SipHash. */
  method SipHash24(msg: seq<byte>, key: seq<byte>) returns (h: bv64)
    requires |key| == 16
    ensures h == SipHash(msg, key)
  {
    var v := new bv64[5];
    SipInit(v, key);
    ViewLayout(Initial(key), 0);
    AbsorbBlocks(v, msg);
    var m := Epilogue(msg);
    CompressInPlace(v, m);
    h := FinalizeInPlace(v);
  }
}
