/** Shared vocabulary: an optional value (C's nullable pointer), the unsigned
    32-bit integers of the C code, and single-bit access to 16-bit registers. */
module Common {

  /** A value that may be absent; used for C pointers that may be NULL. */
  datatype Option<+T> = None | Some(value: T)

  const U32_MODULUS: int := 0x1_0000_0000

  /** C's `uint32_t`. */
  type u32 = x: int | 0 <= x < U32_MODULUS

  /** Addition of two `uint32_t` values as C performs it: modulo 2^32. */
  function AddU32(a: u32, b: u32): (r: u32)
    ensures a + b < U32_MODULUS ==> r == a + b
    ensures a + b >= U32_MODULUS ==> r == a + b - U32_MODULUS
  {
    (a + b) % U32_MODULUS
  }

  /** C's `uint16_t`. */
  type u16 = x: int | 0 <= x < 0x1_0000

  /** Width of a GPIO port register and of the fired-pin mask: one bit per
      interrupt line of a port. */
  const REG_BITS: nat := 16

  /** Whether bit `i` of the unsigned value `m` is set, read by testing the
      low bit and shifting right: bit 0 is `m % 2`, and bit `i + 1` of `m` is
      bit `i` of `m / 2`. */
  predicate Bit(m: nat, i: nat)
    decreases i
  {
    if i == 0 then m % 2 == 1 else Bit(m / 2, i - 1)
  }

  /** `2^k`. */
  function Pow2(k: nat): (r: nat)
    ensures r >= 1
  {
    if k == 0 then 1 else 2 * Pow2(k - 1)
  }

  /** Every `uint16_t` is below `2^16`. */
  lemma U16Bound(m: u16)
    ensures m < Pow2(REG_BITS)
  {
    assert Pow2(4) == 16;
    assert Pow2(8) == 256;
    assert Pow2(12) == 4096;
    assert Pow2(16) == 0x1_0000;
  }

  /** `m >> k`, one position at a time as the C loop shifts. */
  function Shr(m: nat, k: nat): nat {
    if k == 0 then m else Shr(m, k - 1) / 2
  }

  /** Bit `j` of `m >> k` is bit `k + j` of `m`. */
  lemma {:induction false} ShrBit(m: nat, k: nat, j: nat)
    ensures Bit(Shr(m, k), j) == Bit(m, k + j)
  {
    if k > 0 {
      ShrBit(m, k - 1, j + 1);
    }
  }

  /** Shifting a value below `2^n` right by `k` leaves it below `2^(n-k)`. */
  lemma {:induction false} ShrBound(m: nat, n: nat, k: nat)
    requires m < Pow2(n) && k <= n
    ensures Shr(m, k) < Pow2(n - k)
  {
    if k > 0 {
      ShrBound(m, n, k - 1);
    }
  }

  /** No bit of zero is set. */
  lemma {:induction false} ZeroHasNoBits(i: nat)
    ensures !Bit(0, i)
  {
    if i > 0 {
      ZeroHasNoBits(i - 1);
    }
  }
}
