/** 64-bit word arithmetic of siphash.c: `uint64_t` addition, which wraps
    modulo 2^64 (Dafny's bv64 `+` and `-` are exactly that), and the `rol`
    macro. Addition is kept behind a function so that proofs about the round
    function can match sums term by term. */
module Word64 {

  /** `x + y` on `uint64_t`: addition modulo 2^64. */
  function Add(x: bv64, y: bv64): bv64
  {
    x + y
  }

  /** Subtraction modulo 2^64, the inverse of Add. */
  function Sub(x: bv64, y: bv64): bv64
  {
    x - y
  }

  /** Subtracting what was added gives back the original word. */
  lemma SubAdd(x: bv64, y: bv64)
    ensures Sub(Add(x, y), y) == x
  {
    assert Add(x, y) == x + y;
    assert Sub(x + y, y) == (x + y) - y;
  }

  /** Adding back what was subtracted gives back the original word. */
  lemma AddSub(x: bv64, y: bv64)
    ensures Add(Sub(x, y), y) == x
  {
    assert Sub(x, y) == x - y;
    assert Add(x - y, y) == (x - y) + y;
  }

  /** Bitwise exclusive or, `x ^ y`. */
  function Xor(x: bv64, y: bv64): bv64
  {
    x ^ y
  }

  /** Xor is commutative. */
  lemma XorComm(x: bv64, y: bv64)
    ensures Xor(x, y) == Xor(y, x)
  {
  }

  /** Xoring the same word twice cancels it, on either side. */
  lemma XorCancel(x: bv64, y: bv64)
    ensures Xor(Xor(x, y), y) == x
    ensures Xor(Xor(y, x), y) == x
  {
  }

  /** The `rol` macro: a shift left ORed with the complementary shift right. */
  function Rol(x: bv64, l: bv64): bv64
    requires 0 < l < 64
  {
    (x << l) | (x >> (64 - l))
  }

  /** Rotation to the right, the inverse of `rol`. */
  function Ror(x: bv64, l: bv64): bv64
    requires 0 < l < 64
  {
    (x >> l) | (x << (64 - l))
  }

  /** Rotation to the left by `n` bits, as Dafny's bit-vector type defines it. */
  function Rotl(x: bv64, n: nat): bv64
    requires n < 64
  {
    x.RotateLeft(n)
  }

  /** For every rotation amount SIP_ROUND uses, `rol` is a true left rotation. */
  lemma RolRotates(x: bv64)
    ensures Rol(x, 13) == Rotl(x, 13)
    ensures Rol(x, 16) == Rotl(x, 16)
    ensures Rol(x, 17) == Rotl(x, 17)
    ensures Rol(x, 21) == Rotl(x, 21)
    ensures Rol(x, 32) == Rotl(x, 32)
  {
  }

  /** Ror undoes `rol` by 13, and `rol` undoes Ror by 13. */
  lemma RotateInverse13(x: bv64)
    ensures Ror(Rol(x, 13), 13) == x
    ensures Rol(Ror(x, 13), 13) == x
  {
  }

  /** Ror undoes `rol` by 16, and `rol` undoes Ror by 16. */
  lemma RotateInverse16(x: bv64)
    ensures Ror(Rol(x, 16), 16) == x
    ensures Rol(Ror(x, 16), 16) == x
  {
  }

  /** Ror undoes `rol` by 17, and `rol` undoes Ror by 17. */
  lemma RotateInverse17(x: bv64)
    ensures Ror(Rol(x, 17), 17) == x
    ensures Rol(Ror(x, 17), 17) == x
  {
  }

  /** Ror undoes `rol` by 21, and `rol` undoes Ror by 21. */
  lemma RotateInverse21(x: bv64)
    ensures Ror(Rol(x, 21), 21) == x
    ensures Rol(Ror(x, 21), 21) == x
  {
  }

  /** Ror undoes `rol` by 32, and `rol` undoes Ror by 32; `rol` by 32, half
      the word, undoes itself. */
  lemma RotateInverse32(x: bv64)
    ensures Ror(Rol(x, 32), 32) == x
    ensures Rol(Ror(x, 32), 32) == x
    ensures Rol(Rol(x, 32), 32) == x
  {
  }
}
