/**
 * Unsigned C integer operators on natural numbers.
 *
 * The checksum routine is written with C's `<<`, `>>`, `|`, `&`, `~`, casts
 * to narrower unsigned types and `+=` on a 32-bit accumulator. This module
 * gives each of them a definition on `nat`: the bitwise operators bit by bit,
 * the shifts as multiplication and division by a power of two, and the
 * fixed-width operations with their wrap-around written out. The lemmas
 * state when a bitwise operator coincides with ordinary arithmetic.
 */
module Bits {

  /** 2 to the power k. */
  function Pow2(k: nat): (r: nat)
    ensures r >= 1
  {
    if k == 0 then 1 else 2 * Pow2(k - 1)
  }

  /** The powers of two that occur as shift amounts and widths in the routine. */
  lemma Pow2Values()
    ensures Pow2(4) == 0x10 && Pow2(8) == 0x100 && Pow2(12) == 0x1000 && Pow2(13) == 0x2000
    ensures Pow2(16) == 0x1_0000 && Pow2(32) == 0x1_0000_0000
  {
    assert Pow2(4) == 0x10;
    assert Pow2(8) == 0x100;
    assert Pow2(12) == 0x1000;
    assert Pow2(13) == 0x2000;
    assert Pow2(16) == 0x1_0000;
    assert Pow2(24) == 0x100_0000; // an intermediate step: the unfolding from 16 to 32 is too long in one go
    assert Pow2(32) == 0x1_0000_0000;
  }

  /** `x << k`, where the shifted value is an `int` too wide to lose bits. */
  function Shl(x: nat, k: nat): nat
  {
    x * Pow2(k)
  }

  /** `x >> k` on an unsigned value. */
  function Shr(x: nat, k: nat): nat
  {
    DivNonNegative(x, Pow2(k));
    x / Pow2(k)
  }

  /** Conversion of a non-negative value to a `w`-bit unsigned type (a C cast or assignment). */
  function Trunc(x: nat, w: nat): (r: nat)
    ensures r < Pow2(w)
  {
    x % Pow2(w)
  }

  /** `a + b` on `u32` operands: the sum modulo 2^32. */
  function Add32(a: nat, b: nat): (r: nat)
    ensures r < 0x1_0000_0000
    ensures a + b < 0x1_0000_0000 ==> r == a + b
  {
    (a + b) % 0x1_0000_0000
  }

  /** Bitwise `a | b`: a bit of the result is set when it is set in either operand. */
  function Or(a: nat, b: nat): (r: nat)
    ensures a <= r && b <= r && r <= a + b
    decreases a + b
  {
    if a == 0 && b == 0 then 0
    else 2 * Or(a / 2, b / 2) + (if a % 2 == 1 || b % 2 == 1 then 1 else 0)
  }

  /** Bitwise `a & b`: a bit of the result is set when it is set in both operands. */
  function And(a: nat, b: nat): (r: nat)
    ensures r <= a && r <= b
    decreases a + b
  {
    if a == 0 || b == 0 then 0
    else 2 * And(a / 2, b / 2) + (if a % 2 == 1 && b % 2 == 1 then 1 else 0)
  }

  /** Bitwise `~x` on a `w`-bit unsigned type: each of the low `w` bits of `x` inverted. */
  function Not(x: nat, w: nat): (r: nat)
    ensures r < Pow2(w)
  {
    if w == 0 then 0 else 2 * Not(x / 2, w - 1) + (1 - x % 2)
  }

  /** A positive multiple of d is at least d. */
  lemma MulAtLeast(a: int, d: int)
    requires a >= 1 && d > 0
    ensures a * d >= d
  {
    assert a * d == (a - 1) * d + d;
    assert (a - 1) * d >= 0;
  }

  lemma MulDouble(q: int, p: int)
    ensures q * (2 * p) == 2 * (q * p)
  {
  }

  /** Dividing a natural by a positive number gives a natural. */
  lemma DivNonNegative(x: nat, d: nat)
    requires d > 0
    ensures x / d >= 0
  {
  }

  /** Quotient and remainder are unique: any decomposition x == q * d + r with 0 <= r < d is Euclid's. */
  lemma DivModUnique(x: int, d: int, q: int, r: int)
    requires d > 0 && 0 <= r < d && x == q * d + r
    ensures x / d == q && x % d == r
  {
    var q0, r0 := x / d, x % d;
    assert x == q0 * d + r0;
    assert (q - q0) * d == r0 - r by {
      assert q * d - q0 * d == (q - q0) * d;
    }
    if q > q0 {
      MulAtLeast(q - q0, d);
    } else if q < q0 {
      MulAtLeast(q0 - q, d);
    }
  }

  lemma {:induction false} OrZero(a: nat)
    ensures Or(a, 0) == a
    decreases a
  {
    if a != 0 {
      OrZero(a / 2);
    }
  }

  /**
   * OR of two values whose set bits cannot overlap is their sum: `a << k`
   * has its low k bits clear and `b` has nothing above them.
   */
  lemma {:induction false} OrDisjoint(a: nat, b: nat, k: nat)
    requires b < Pow2(k)
    ensures Or(Shl(a, k), b) == Shl(a, k) + b
    decreases k
  {
    if k == 0 {
      assert b == 0 && Shl(a, k) == a;
      OrZero(a);
    } else {
      var hi := Shl(a, k - 1);
      assert Shl(a, k) == 2 * hi;
      if hi == 0 && b == 0 {
      } else {
        assert Shl(a, k) / 2 == hi && Shl(a, k) % 2 == 0;
        OrDisjoint(a, b / 2, k - 1);
      }
    }
  }

  /** Dropping the lowest bit and taking the rest modulo p is taking x modulo 2p. */
  lemma ModDouble(x: nat, p: nat)
    requires p >= 1
    ensures x % (2 * p) == 2 * ((x / 2) % p) + x % 2
  {
    var xh := x / 2;
    var q := xh / p;
    assert xh == q * p + xh % p;
    MulDouble(q, p);
    assert x == q * (2 * p) + (2 * (xh % p) + x % 2);
    DivModUnique(x, 2 * p, q, 2 * (xh % p) + x % 2);
  }

  /** Masking with 2^k - 1 keeps the low k bits: `x & (2^k - 1) == x % 2^k`. */
  lemma {:induction false} AndLowMask(x: nat, k: nat)
    ensures And(x, Pow2(k) - 1) == x % Pow2(k)
    decreases k
  {
    if k == 0 {
      assert Pow2(k) == 1;
    } else if x == 0 {
      DivModUnique(x, Pow2(k), 0, 0);
    } else {
      var p := Pow2(k - 1);
      var m := Pow2(k) - 1;
      assert m == 2 * p - 1;
      assert m / 2 == p - 1 && m % 2 == 1;
      assert And(x, m) == 2 * And(x / 2, p - 1) + x % 2;
      AndLowMask(x / 2, k - 1);
      assert And(x, m) == 2 * ((x / 2) % p) + x % 2;
      ModDouble(x, p);
      assert x % Pow2(k) == x % (2 * p);
    }
  }

  /** The w-bit complement of a w-bit value is 2^w - 1 minus it. */
  lemma {:induction false} NotComplement(x: nat, w: nat)
    requires x < Pow2(w)
    ensures Not(x, w) == Pow2(w) - 1 - x
    decreases w
  {
    if w != 0 {
      NotComplement(x / 2, w - 1);
    }
  }
}
