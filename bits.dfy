/**
 Go's integer bit operators, written out on natural numbers.

 The position code works on non-negative `int` and `uint64` values with `<<`,
 `>>`, `|` and `&^`-style masking. Each operator is defined here bit by bit (or,
 for the shifts, by multiplication by a power of two and repeated halving), and the
 lemmas state the arithmetic facts the position code relies on: an OR of
 operands whose bits do not overlap is a sum, and masking out the highest set
 bit subtracts it.
 */
module Bits {

  /** 2^k. */
  function Pow2(k: nat): (r: nat)
    ensures r >= 1
  {
    if k == 0 then 1 else 2 * Pow2(k - 1)
  }

  /** The values of Go's `uint64`. */
  type Uint64 = x: nat | x < Pow2(64)

  /** `a << k`. */
  function ShiftLeft(a: nat, k: nat): nat {
    a * Pow2(k)
  }

  /** `a >> k`: k halvings, each dropping the lowest bit. */
  function ShiftRight(a: nat, k: nat): nat {
    if k == 0 then a else ShiftRight(a / 2, k - 1)
  }

  /** `a | b`: bit i of the result is set when bit i of a or of b is. */
  function Or(a: nat, b: nat): nat {
    if a == 0 then b
    else if b == 0 then a
    else 2 * Or(a / 2, b / 2) + (if a % 2 == 1 || b % 2 == 1 then 1 else 0)
  }

  /** `x & ^m`: bit i of the result is set when bit i of x is and bit i of m is not. */
  function AndNot(x: nat, m: nat): nat {
    if x == 0 then 0
    else 2 * AndNot(x / 2, m / 2) + (if x % 2 == 1 && m % 2 == 0 then 1 else 0)
  }

  lemma {:induction false} Pow2Add(a: nat, b: nat)
    ensures Pow2(a + b) == Pow2(a) * Pow2(b)
  {
    if a > 0 {
      Pow2Add(a - 1, b);
      calc {
        Pow2(a + b);
        2 * Pow2(a - 1 + b);
        2 * (Pow2(a - 1) * Pow2(b));
        (2 * Pow2(a - 1)) * Pow2(b);
        Pow2(a) * Pow2(b);
      }
    }
  }

  lemma {:induction false} Pow2Monotone(a: nat, b: nat)
    requires a <= b
    ensures Pow2(a) <= Pow2(b)
  {
    if a < b {
      Pow2Monotone(a, b - 1);
    }
  }

  /** Powers of two above 2^0 are even, so they have no low bit. */
  lemma Pow2Even(k: nat)
    requires k >= 1
    ensures Pow2(k) % 2 == 0 && Pow2(k) / 2 == Pow2(k - 1)
  {
  }

  /** `a >> k >> 1 == a >> (k + 1)`: one more right shift halves the value again. */
  lemma {:induction false} ShiftRightStep(a: nat, k: nat)
    ensures ShiftRight(a, k) / 2 == ShiftRight(a, k + 1)
  {
    if k > 0 {
      ShiftRightStep(a / 2, k - 1);
    }
  }

  /** `a >> 1` halves a. */
  lemma ShiftRightOne(a: nat)
    ensures ShiftRight(a, 1) == a / 2
  {
    assert ShiftRight(a, 1) == ShiftRight(a / 2, 0);
  }

  /** Multiplying by a non-negative factor keeps the order. */
  lemma MulMonotone(a: nat, b: nat, c: nat)
    requires a <= b
    ensures a * c <= b * c
  {
  }

  lemma SuccTimes(i: nat, n: nat)
    ensures (i + 1) * n == i * n + n
  {
  }

  lemma DoubleFactor(a: nat, h: nat)
    ensures (2 * a) * h == a * (2 * h)
  {
  }

  /** `a << k == (a << (k - 1)) * 2`. */
  lemma ShiftLeftStep(a: nat, k: nat)
    requires k >= 1
    ensures ShiftLeft(a, k) == 2 * ShiftLeft(a, k - 1)
  {
    calc {
      ShiftLeft(a, k);
      a * Pow2(k);
      a * (2 * Pow2(k - 1));
      2 * (a * Pow2(k - 1));
    }
  }

  /**
   OR-ing a value shifted left by k with a value below 2^k touches disjoint
   bits, so it adds the two.
   */
  lemma {:induction false} OrLowBits(a: nat, k: nat, b: nat)
    requires b < Pow2(k)
    ensures Or(ShiftLeft(a, k), b) == ShiftLeft(a, k) + b
  {
    var h := ShiftLeft(a, k);
    if k == 0 {
      assert b == 0;
    } else if h != 0 && b != 0 {
      ShiftLeftStep(a, k);
      var m := ShiftLeft(a, k - 1);
      assert h / 2 == m && h % 2 == 0;
      OrLowBits(a, k - 1, b / 2);
      calc {
        Or(h, b);
        2 * Or(h / 2, b / 2) + b % 2;
        2 * (h / 2 + b / 2) + b % 2;
        h + b;
      }
    }
  }

  /** `a | 1` sets the lowest bit and keeps the others. */
  lemma OrOne(a: nat)
    ensures Or(a, 1) == 2 * (a / 2) + 1
  {
    if a != 0 {
      assert Or(a / 2, 0) == a / 2;
    }
  }

  /**
   Masking out bit d of a value whose highest set bit is d subtracts 2^d and
   leaves the lower bits.
   */
  lemma {:induction false} ClearTopBit(x: nat, d: nat)
    requires Pow2(d) <= x < Pow2(d + 1)
    ensures AndNot(x, Pow2(d)) == x - Pow2(d)
  {
    if d == 0 {
      assert x == 1;
      assert AndNot(1, 1) == 2 * AndNot(0, 0);
    } else {
      Pow2Even(d);
      assert Pow2(d - 1) <= x / 2 < Pow2(d);
      ClearTopBit(x / 2, d - 1);
      calc {
        AndNot(x, Pow2(d));
        2 * AndNot(x / 2, Pow2(d - 1)) + x % 2;
        2 * (x / 2 - Pow2(d - 1)) + x % 2;
        x - Pow2(d);
      }
    }
  }
}
