/** The two integer element types the reduction operators are verified on:
    C++ `int` (32-bit two's complement) and `unsigned` (32 bits, arithmetic
    modulo 2^32), with the bit-level view that `|` works on. Everything is
    stated in unbounded integer arithmetic; wrap-around and two's complement
    are written out explicitly. */
module MachineInt {

  const TWO_32: int := 0x1_0000_0000
  const INT32_MIN: int := -0x8000_0000
  const INT32_MAX: int := 0x7fff_ffff

  /** C++ `int`. Leaving this range is undefined behaviour in C++, so every
      operation producing an int32 must show that it stays inside. */
  newtype int32 = x: int | -0x8000_0000 <= x < 0x8000_0000

  /** C++ `unsigned`. Its `+` wraps modulo 2^32 (see Op.ReduceUInt32). */
  newtype uint32 = x: int | 0 <= x < 0x1_0000_0000

  predicate InInt32(x: int) {
    INT32_MIN <= x <= INT32_MAX
  }

  function Pow2(k: nat): (p: nat)
    ensures p > 0
  {
    if k == 0 then 1 else 2 * Pow2(k - 1)
  }

  lemma {:induction false} Pow2Add(a: nat, b: nat)
    ensures Pow2(a + b) == Pow2(a) * Pow2(b)
  {
    if b > 0 {
      Pow2Add(a, b - 1);
      assert Pow2(a + b) == 2 * Pow2(a + b - 1);
    }
  }

  lemma Pow2Width()
    ensures Pow2(32) == TWO_32
  {
    assert Pow2(8) == 256;
    Pow2Add(8, 8);
    Pow2Add(16, 16);
  }

  /** Bit k (0 = least significant) of a non-negative number. */
  predicate Bit(x: nat, k: nat) {
    if k == 0 then x % 2 == 1 else Bit(x / 2, k - 1)
  }

  /** Bit k of an unsigned value. */
  predicate BitOf(x: uint32, k: nat) {
    Bit(x as nat, k)
  }

  /** Bitwise OR of the low w bits of a and b, one bit per step. */
  function OrBits(a: nat, b: nat, w: nat): (r: nat)
    ensures r < Pow2(w)
  {
    if w == 0 then 0
    else 2 * OrBits(a / 2, b / 2, w - 1) + (if a % 2 == 1 || b % 2 == 1 then 1 else 0)
  }

  /** Bit k of an OR is set exactly when bit k of either operand is. */
  lemma {:induction false} OrBitsBit(a: nat, b: nat, w: nat, k: nat)
    requires k < w
    ensures Bit(OrBits(a, b, w), k) == (Bit(a, k) || Bit(b, k))
  {
    assert OrBits(a, b, w) / 2 == OrBits(a / 2, b / 2, w - 1);
    if k > 0 {
      OrBitsBit(a / 2, b / 2, w - 1, k - 1);
    }
  }

  lemma OrBitsBits(a: nat, b: nat, w: nat)
    ensures forall k :: 0 <= k < w ==> Bit(OrBits(a, b, w), k) == (Bit(a, k) || Bit(b, k))
  {
    forall k | 0 <= k < w
      ensures Bit(OrBits(a, b, w), k) == (Bit(a, k) || Bit(b, k))
    {
      OrBitsBit(a, b, w, k);
    }
  }

  lemma {:induction false} OrBitsCommutative(a: nat, b: nat, w: nat)
    ensures OrBits(a, b, w) == OrBits(b, a, w)
  {
    if w > 0 {
      OrBitsCommutative(a / 2, b / 2, w - 1);
    }
  }

  lemma {:induction false} OrBitsAssociative(a: nat, b: nat, c: nat, w: nat)
    ensures OrBits(OrBits(a, b, w), c, w) == OrBits(a, OrBits(b, c, w), w)
  {
    if w > 0 {
      assert OrBits(a, b, w) / 2 == OrBits(a / 2, b / 2, w - 1);
      assert OrBits(b, c, w) / 2 == OrBits(b / 2, c / 2, w - 1);
      OrBitsAssociative(a / 2, b / 2, c / 2, w - 1);
    }
  }

  /** OR-ing a w-bit number with itself gives it back. */
  lemma {:induction false} OrBitsIdempotent(a: nat, w: nat)
    requires a < Pow2(w)
    ensures OrBits(a, a, w) == a
  {
    if w > 0 {
      OrBitsIdempotent(a / 2, w - 1);
    }
  }

  /** The top bit of a (k+1)-bit number is set exactly when it is at least 2^k. */
  lemma {:induction false} TopBit(u: nat, k: nat)
    requires u < Pow2(k + 1)
    ensures Bit(u, k) <==> u >= Pow2(k)
  {
    if k > 0 {
      TopBit(u / 2, k - 1);
    }
  }

  /** `|` on C++ `unsigned`. */
  function OrUInt32(a: uint32, b: uint32): (r: uint32)
    ensures forall k :: 0 <= k < 32 ==> BitOf(r, k) == (BitOf(a, k) || BitOf(b, k))
  {
    Pow2Width();
    OrBitsBits(a as nat, b as nat, 32);
    OrBits(a as nat, b as nat, 32) as uint32
  }

  /** The two's complement bit pattern of a signed value, read as unsigned:
      what C++'s bitwise operators see of an `int`. */
  function ToBits(x: int32): uint32 {
    if x >= 0 then x as int as uint32 else (x as int + TWO_32) as uint32
  }

  /** Reads a bit pattern back as a signed value. */
  function FromBits(u: uint32): (x: int32)
    ensures ToBits(x) == u
  {
    if u < 0x8000_0000 then u as int as int32 else (u as int - TWO_32) as int32
  }

  lemma FromToBits(x: int32)
    ensures FromBits(ToBits(x)) == x
  {
  }

  /** A signed value is negative exactly when its bit 31 (the sign bit) is set. */
  lemma SignBit(x: int32)
    ensures x < 0 <==> BitOf(ToBits(x), 31)
  {
    Pow2Width();
    assert Pow2(31) == 0x8000_0000;
    TopBit(ToBits(x) as nat, 31);
  }
}
