/** Fixed-width unsigned integers and the bit operations on them that the
    fingerprint uses, written out on unbounded naturals. */
module Bits {
  import opened Cmp

  /** `u8`. */
  type U8 = x: int | 0 <= x < 0x100

  /** 2^64, one more than the largest `u64`. */
  const U64_MODULUS: int := 0x1_0000_0000_0000_0000

  /** `u64`. */
  type U64 = x: int | 0 <= x < 0x1_0000_0000_0000_0000

  function Pow2(n: nat): (r: nat)
    ensures r >= 1
  {
    if n == 0 then 1 else 2 * Pow2(n - 1)
  }

  lemma {:induction false} Pow2Monotone(i: nat, j: nat)
    requires i <= j
    ensures Pow2(i) <= Pow2(j)
  {
    if i < j {
      Pow2Monotone(i, j - 1);
    }
  }

  lemma {:induction false} Pow2Add(a: nat, b: nat)
    ensures Pow2(a + b) == Pow2(a) * Pow2(b)
  {
    if a > 0 {
      Pow2Add(a - 1, b);
    }
  }

  lemma Pow2At64()
    ensures Pow2(64) == U64_MODULUS
  {
    assert Pow2(8) == 0x100;
    Pow2Add(8, 8);
    Pow2Add(16, 16);
    Pow2Add(32, 32);
  }

  /** Bit `i` of `x`, counting from the least significant one: `(x >> i) & 1`. */
  function Bit(x: nat, i: nat): (b: nat)
    ensures b <= 1
  {
    if i == 0 then x % 2 else Bit(x / 2, i - 1)
  }

  /** Two numbers below 2^n with the same n low bits are the same number. */
  lemma {:induction false} BitsDetermine(x: nat, y: nat, n: nat)
    requires x < Pow2(n) && y < Pow2(n)
    requires forall i :: 0 <= i < n ==> Bit(x, i) == Bit(y, i)
    ensures x == y
  {
    if n > 0 {
      forall i | 0 <= i < n - 1
        ensures Bit(x / 2, i) == Bit(y / 2, i)
      {
        assert Bit(x, i + 1) == Bit(x / 2, i);
        assert Bit(y, i + 1) == Bit(y / 2, i);
      }
      BitsDetermine(x / 2, y / 2, n - 1);
      assert Bit(x, 0) == Bit(y, 0);
    }
  }

  /** `count_ones`: the number of set bits of `x`. */
  function Popcount(x: nat): (r: nat)
    ensures r == 0 <==> x == 0
    ensures r <= x
  {
    if x == 0 then 0 else x % 2 + Popcount(x / 2)
  }

  /** Reference count of set bits: how many of the positions 0..n-1 hold a 1. */
  function OnesBelow(x: nat, n: nat): (r: nat)
    ensures r <= n
  {
    if n == 0 then 0 else OnesBelow(x, n - 1) + Bit(x, n - 1)
  }

  lemma {:induction false} OnesBelowShift(x: nat, n: nat)
    requires n >= 1
    ensures OnesBelow(x, n) == x % 2 + OnesBelow(x / 2, n - 1)
  {
    if n > 1 {
      OnesBelowShift(x, n - 1);
    }
  }

  /** On a number below 2^n, `Popcount` counts the set bit positions below n,
      so it is at most n (for a `u64`, at most 64). */
  lemma {:induction false} PopcountCountsBits(x: nat, n: nat)
    requires x < Pow2(n)
    ensures Popcount(x) == OnesBelow(x, n)
    ensures Popcount(x) <= n
  {
    if n == 0 {
      assert x == 0;
    } else {
      PopcountCountsBits(x / 2, n - 1);
      OnesBelowShift(x, n);
    }
  }

  /** Bitwise OR: `x | y`. */
  function Or(x: nat, y: nat): (r: nat)
    decreases x + y
  {
    if x == 0 && y == 0 then 0
    else 2 * Or(x / 2, y / 2) + (if x % 2 == 1 || y % 2 == 1 then 1 else 0)
  }

  /** The lowest bit of `x | y` and the OR of the rest. */
  lemma OrSplit(x: nat, y: nat)
    ensures Or(x, y) % 2 == (if x % 2 == 1 || y % 2 == 1 then 1 else 0)
    ensures Or(x, y) / 2 == Or(x / 2, y / 2)
  {
  }

  /** Every bit of `x | y` is the OR of the two operands' bits. */
  lemma {:induction false} OrBit(x: nat, y: nat, i: nat)
    ensures Bit(Or(x, y), i) == 1 <==> Bit(x, i) == 1 || Bit(y, i) == 1
    decreases i
  {
    OrSplit(x, y);
    if i > 0 {
      OrBit(x / 2, y / 2, i - 1);
    }
  }

  lemma {:induction false} OrZero(x: nat)
    ensures Or(x, 0) == x
  {
    if x > 0 {
      OrZero(x / 2);
    }
  }

  /** Adding 2^k to a number below 2^k carries into no bit: it is the OR. */
  lemma {:induction false} AddIsOr(acc: nat, k: nat)
    requires acc < Pow2(k)
    ensures acc + Pow2(k) == Or(acc, Pow2(k))
  {
    if k > 0 {
      assert Pow2(k) / 2 == Pow2(k - 1) && Pow2(k) % 2 == 0;
      AddIsOr(acc / 2, k - 1);
    }
  }

  /** `x << n` on `u64`, for a shift amount below 64: bits moved past bit 63 are lost. */
  function Shl(x: U64, n: nat): (r: U64)
    requires n < 64
    ensures x * Pow2(n) < U64_MODULUS ==> r == x * Pow2(n)
  {
    (x * Pow2(n)) % U64_MODULUS
  }

  /** Shifting a `u64` made from a `bool` never loses the bit. */
  lemma ShlBool(n: nat)
    requires n < 64
    ensures Shl(0, n) == 0
    ensures Shl(1, n) == Pow2(n)
  {
    Pow2Monotone(n + 1, 64);
    Pow2At64();
  }

  /** `u8::try_from` on a `u64`. */
  function TryFromU8(x: U64): (r: Option<U8>)
    ensures r.Some? <==> x < 0x100
    ensures r.Some? ==> r.value == x
  {
    if x < 0x100 then Some(x) else None
  }
}
