/** Numbers as the adapter computes them: 16-bit samples, integer division that truncates toward
    zero, rounding half away from zero, and the bridges from exact `real` arithmetic (which stands
    for `float64` here) to integers. */
module Arithmetic {
  const MIN_INT16 := -0x8000
  const MAX_INT16 := 0x7fff

  type Sample = s: int | MIN_INT16 <= s <= MAX_INT16

  function Min(a: int, b: int): int { if a <= b then a else b }

  function Max(a: int, b: int): int { if a >= b then a else b }

  function Abs(a: int): nat { if a >= 0 then a else -a }

  /** Integer division of the source: the fraction is dropped. */
  function TruncDiv(a: int, d: int): int
    requires d > 0
  {
    if a >= 0 then a / d else -((-a) / d)
  }

  /** `math.Round` of the non-negative fraction `a / d`. */
  function RoundDiv(a: nat, d: nat): nat
    requires d > 0
  {
    DivisionMonotone(0, 2 * a + d, 2 * d);
    (2 * a + d) / (2 * d)
  }

  /** m * x as repeated addition. */
  function Times(m: nat, x: nat): nat
  {
    if m == 0 then 0 else Times(m - 1, x) + x
  }

  lemma TimesIsProduct(m: nat, x: nat)
    ensures Times(m, x) == m * x
  {
    if m > 0 {
      TimesIsProduct(m - 1, x);
      assert m * x == (m - 1) * x + x;
    }
  }

  lemma TimesMonotone(m: nat, x: nat, y: nat)
    requires x <= y
    ensures Times(m, x) <= Times(m, y)
  {
  }

  /** Conversion of a `float64` to an integer type. */
  function TruncReal(x: real): int { if x >= 0.0 then x.Floor else -((-x).Floor) }

  /** `math.Round`: halves go away from zero. */
  function RoundReal(x: real): int { if x >= 0.0 then (x + 0.5).Floor else -((0.5 - x).Floor) }

  lemma DivisionBounds(a: int, d: int)
    requires d > 0
    ensures (a / d) * d <= a < (a / d + 1) * d
  {
    assert a == (a / d) * d + a % d;
    assert (a / d + 1) * d == (a / d) * d + d;
  }

  lemma DivisionUnique(a: int, d: int, q: int)
    requires d > 0 && q * d <= a < (q + 1) * d
    ensures a / d == q
  {
    DivisionBounds(a, d);
    var p := a / d;
    if p < q {
      MulMonotone(p + 1, q, d);
    } else if p > q {
      MulMonotone(q + 1, p, d);
    }
  }

  lemma MulMonotone(a: int, b: int, d: int)
    requires a <= b && d >= 0
    ensures a * d <= b * d
  {
    assert (b - a) * d >= 0;
    assert b * d == a * d + (b - a) * d;
  }

  lemma DivisionMonotone(a: int, b: int, d: int)
    requires d > 0 && a <= b
    ensures a / d <= b / d
  {
    DivisionBounds(a, d);
    DivisionBounds(b, d);
    if b / d + 1 <= a / d {
      MulMonotone(b / d + 1, a / d, d);
    }
  }

  /** Truncation never grows the magnitude, keeps the sign, and loses less than one. */
  lemma TruncDivBounds(a: int, d: int)
    requires d > 0
    ensures Abs(TruncDiv(a, d)) * d <= Abs(a) < (Abs(TruncDiv(a, d)) + 1) * d
    ensures a >= 0 ==> TruncDiv(a, d) >= 0
    ensures a <= 0 ==> TruncDiv(a, d) <= 0
  {
    DivisionBounds(Abs(a), d);
    DivisionMonotone(0, Abs(a), d);
  }

  lemma TruncDivMonotone(a: int, b: int, d: int)
    requires d > 0 && a <= b
    ensures TruncDiv(a, d) <= TruncDiv(b, d)
  {
    DivisionMonotone(0, Abs(a), d);
    DivisionMonotone(0, Abs(b), d);
    if a >= 0 {
      DivisionMonotone(a, b, d);
    } else if b < 0 {
      DivisionMonotone(-b, -a, d);
    }
  }

  /** Truncation is exact on whole multiples and never crosses one. */
  lemma TruncDivOfMultiple(q: int, d: int)
    requires d > 0
    ensures TruncDiv(q * d, d) == q
  {
    if q >= 0 {
      MulMonotone(0, q, d);
      DivisionUnique(q * d, d, q);
    } else {
      MulMonotone(q + 1, 0, d);
      assert -(q * d) == (-q) * d;
      DivisionUnique(-(q * d), d, -q);
    }
  }

  lemma TruncDivOdd(a: int, d: int)
    requires d > 0
    ensures TruncDiv(-a, d) == -TruncDiv(a, d)
  {
    if a == 0 {
      DivisionUnique(0, d, 0);
    }
  }

  /** The rounded value is the nearest integer; halves go up. */
  lemma RoundDivNearest(a: nat, d: nat)
    requires d > 0
    ensures 2 * RoundDiv(a, d) * d - d <= 2 * a < 2 * RoundDiv(a, d) * d + d
  {
    var q := RoundDiv(a, d);
    DivisionBounds(2 * a + d, 2 * d);
    assert q * (2 * d) == 2 * q * d;
    assert (q + 1) * (2 * d) == 2 * q * d + 2 * d;
  }

  /** The rounding bound determines the rounded value. */
  lemma RoundDivUnique(a: nat, d: nat, q: nat)
    requires d > 0 && 2 * q * d - d <= 2 * a < 2 * q * d + d
    ensures RoundDiv(a, d) == q
  {
    assert q * (2 * d) == 2 * q * d;
    assert (q + 1) * (2 * d) == 2 * q * d + 2 * d;
    DivisionUnique(2 * a + d, 2 * d, q);
  }

  lemma RoundDivMonotone(a: nat, b: nat, d: nat)
    requires d > 0 && a <= b
    ensures RoundDiv(a, d) <= RoundDiv(b, d)
  {
    DivisionMonotone(2 * a + d, 2 * b + d, 2 * d);
  }

  /** Rounding does not depend on the scale of the fraction. */
  lemma RoundDivScale(a: nat, d: nat, c: nat)
    requires d > 0 && c > 0
    ensures c * d > 0 && RoundDiv(c * a, c * d) == RoundDiv(a, d)
  {
    var q := RoundDiv(a, d);
    RoundDivNearest(a, d);
    assert c * d > 0 by { MulMonotone(1, c, d); }
    MulMonotone(2 * q * d - d, 2 * a, c);
    MulMonotone(2 * a + 1, 2 * q * d + d, c);
    assert (2 * q * d - d) * c == 2 * q * (c * d) - c * d;
    assert (2 * q * d + d) * c == 2 * q * (c * d) + c * d;
    assert (2 * a) * c == 2 * (c * a);
    assert (2 * a + 1) * c == 2 * (c * a) + c;
    RoundDivUnique(c * a, c * d, q);
  }

  // ---- from exact reals to integers

  lemma QuotientTimesDivisor(a: real, d: real)
    requires d != 0.0
    ensures (a / d) * d == a
  {
  }

  lemma RealMulMonotone(x: real, y: real, d: real)
    requires x <= y && d >= 0.0
    ensures x * d <= y * d
  {
  }

  lemma RealMulStrict(x: real, y: real, d: real)
    requires x < y && d > 0.0
    ensures x * d < y * d
  {
  }

  lemma ProductAsReal(a: int, b: int)
    ensures (a * b) as real == a as real * b as real
  {
  }

  /** Equal products with a nonzero factor have equal cofactors. */
  lemma QuotientUnique(a: real, d: real, x: real)
    requires d != 0.0 && x * d == a
    ensures a / d == x
  {
    QuotientTimesDivisor(a, d);
    assert (a / d - x) * d == 0.0;
  }

  lemma FloorTimesDivisor(x: real, q: int, a: int, d: int)
    requires d > 0 && x * d as real == a as real && q as real <= x < (q + 1) as real
    ensures q * d <= a < (q + 1) * d
  {
    RealMulMonotone(q as real, x, d as real);
    RealMulStrict(x, (q + 1) as real, d as real);
    ProductAsReal(q, d);
    ProductAsReal(q + 1, d);
  }

  lemma FloorOfQuotient(a: int, d: int)
    requires d > 0
    ensures (a as real / d as real).Floor == a / d
  {
    var x := a as real / d as real;
    QuotientTimesDivisor(a as real, d as real);
    FloorTimesDivisor(x, x.Floor, a, d);
    DivisionUnique(a, d, x.Floor);
  }

  lemma TruncOfQuotient(a: int, d: int)
    requires d > 0
    ensures TruncReal(a as real / d as real) == TruncDiv(a, d)
  {
    var x := a as real / d as real;
    QuotientTimesDivisor(a as real, d as real);
    if a >= 0 {
      assert x >= 0.0;
      FloorOfQuotient(a, d);
    } else {
      assert x < 0.0;
      assert -x == (-a) as real / d as real;
      FloorOfQuotient(-a, d);
    }
  }

  lemma RoundOfQuotient(a: nat, d: nat)
    requires d > 0
    ensures RoundReal(a as real / d as real) == RoundDiv(a, d)
  {
    var x := a as real / d as real;
    QuotientTimesDivisor(a as real, d as real);
    assert x >= 0.0;
    assert (2 * d) as real == 2.0 * d as real && (2 * a + d) as real == 2.0 * a as real + d as real;
    assert (x + 0.5) * (2.0 * d as real) == 2.0 * (x * d as real) + d as real;
    QuotientUnique((2 * a + d) as real, (2 * d) as real, x + 0.5);
    FloorOfQuotient(2 * a + d, 2 * d);
  }
}
