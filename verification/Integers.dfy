/** Fixed-width integer arithmetic of the C sources, on unbounded integers. */
module Integers {

  type byte = b: nat | b < 256

  const TWO_16: int := 0x1_0000
  const TWO_31: int := 0x8000_0000
  const TWO_32: int := 0x1_0000_0000
  const TWO_63: int := 0x8000_0000_0000_0000
  const TWO_64: int := 0x1_0000_0000_0000_0000

  /** Conversions to the unsigned widths: reduction modulo the width. */
  function U16(x: int): (r: nat)
    ensures r < 0x1_0000
    ensures 0 <= x < TWO_16 ==> r == x
  {
    x % TWO_16
  }

  function U32(x: int): (r: nat)
    ensures r < 0x1_0000_0000
    ensures 0 <= x < TWO_32 ==> r == x
  {
    x % TWO_32
  }

  function U64(x: int): (r: nat)
    ensures r < 0x1_0000_0000_0000_0000
    ensures 0 <= x < TWO_64 ==> r == x
  {
    x % TWO_64
  }

  /** Conversions to the signed widths: two's complement wrap-around. */
  function Int32(x: int): (r: int)
    ensures -0x8000_0000 <= r < 0x8000_0000
    ensures -TWO_31 <= x < TWO_31 ==> r == x
  {
    (x + TWO_31) % TWO_32 - TWO_31
  }

  function Int64(x: int): (r: int)
    ensures -0x8000_0000_0000_0000 <= r < 0x8000_0000_0000_0000
    ensures -TWO_63 <= x < TWO_63 ==> r == x
  {
    (x + TWO_63) % TWO_64 - TWO_63
  }

  /** All five conversions change a number by a multiple of the width. */
  lemma Conversions(x: int)
    ensures x == x / 0x1_0000 * 0x1_0000 + U16(x)
    ensures x == x / 0x1_0000_0000 * 0x1_0000_0000 + U32(x)
    ensures x == x / 0x1_0000_0000_0000_0000 * 0x1_0000_0000_0000_0000 + U64(x)
    ensures x == (x + 0x8000_0000) / 0x1_0000_0000 * 0x1_0000_0000 + Int32(x)
    ensures x == (x + 0x8000_0000_0000_0000) / 0x1_0000_0000_0000_0000 * 0x1_0000_0000_0000_0000 + Int64(x)
  {
  }

  function Pow2(n: nat): (r: nat)
    ensures r > 0
  {
    if n == 0 then 1 else 2 * Pow2(n - 1)
  }

  lemma {:induction false} Pow2Bound(n: nat, m: nat)
    requires n <= m
    ensures Pow2(n) <= Pow2(m)
  {
    if n < m {
      Pow2Bound(n, m - 1);
    }
  }

  /** Bitwise inclusive or of two natural numbers. */
  function BitOr(a: nat, b: nat): nat
    decreases a + b
  {
    if a == 0 then b
    else if b == 0 then a
    else 2 * BitOr(a / 2, b / 2) + (if a % 2 == 1 || b % 2 == 1 then 1 else 0)
  }

  /** Or never sets a bit above the highest bit of its operands. */
  lemma {:induction false} BitOrBound(a: nat, b: nat, n: nat)
    requires a < Pow2(n) && b < Pow2(n)
    ensures BitOr(a, b) < Pow2(n)
    decreases n
  {
    if a != 0 && b != 0 {
      BitOrBound(a / 2, b / 2, n - 1);
    }
  }

  /** x * y with y at least 1 is at least x. */
  lemma MulAtLeast(x: nat, y: nat)
    requires y >= 1
    ensures x * y >= x
  {
  }

  lemma MulMono(x: int, y: int, z: nat)
    requires x <= y
    ensures x * z <= y * z
  {
  }

  lemma MulStrict(x: int, y: int, z: nat)
    requires x < y && z > 0
    ensures x * z < y * z
  {
  }

  lemma MulStep(x: int, y: int, z: nat)
    requires x < y
    ensures x * z + z <= y * z
  {
    MulMono(x + 1, y, z);
    assert (x + 1) * z == x * z + z;
  }

  /** Quotient and remainder are unique. */
  lemma DivModUnique(x: nat, m: nat, q: nat, r: nat)
    requires r < m && x == q * m + r
    ensures x / m == q && x % m == r
  {
    var q', r' := x / m, x % m;
    assert x == q' * m + r';
    if q' < q {
      MulStep(q', q, m);
      assert false;
    }
    if q < q' {
      MulStep(q, q', m);
      assert false;
    }
  }

  lemma DivNonNegative(x: nat, m: nat)
    requires m > 0
    ensures x / m >= 0
  {
  }

  lemma MulNonNegative(x: nat, y: nat)
    ensures x * y >= 0
  {
  }

  lemma MulDistribute(x: int, y: int, z: int)
    ensures (x + y) * z == x * z + y * z
  {
  }

  /** Numbers written with a digit below m compare as their upper parts do. */
  lemma CompareSplit(qa: nat, ra: nat, qb: nat, rb: nat, m: nat)
    requires ra < m && rb < m
    requires qa * m + ra < qb * m + rb
    ensures qa < qb || (qa == qb && ra < rb)
  {
    if qb < qa {
      MulStep(qb, qa, m);
    }
  }
}
