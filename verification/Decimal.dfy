/** Fixed-point decimals with six places (src/decimal.cpp).  A decimal is its raw value, a 64-bit integer that
  counts millionths.  Integers here are unbounded; the lemmas named `...Fits` say where 64 bits are enough. */
module Decimal {
  import opened Arithmetic

  const PRECISION := 1_000_000
  const PLACES := 6
  const INT64_MAX := 0x7fff_ffff_ffff_ffff
  const TARGET_VALUE := 10_000_000_000_000
  const TARGET_VALUE_B := 1_000_000

  function Abs(v: int): nat {
    if v > 0 then v else -v
  }

  function Pow10(n: nat): (p: nat)
    ensures p > 0
  {
    if n == 0 then 1 else 10 * Pow10(n - 1)
  }

  predicate OppositeSigns(a: int, b: int) {
    (a < 0 && b > 0) || (b < 0 && a > 0)
  }

  // ---------------------------------------------------------------------------------------------
  // Multiplication
  // ---------------------------------------------------------------------------------------------

  /** The product of two magnitudes, from their whole and fractional parts. */
  function MagnitudeProduct(va: nat, vb: nat): nat {
    var ia, ib, fa, fb := va / PRECISION, vb / PRECISION, va % PRECISION, vb % PRECISION;
    ia * ib * PRECISION + fa * ib + fb * ia + fa * fb / PRECISION
  }

  function Multiply(a: int, b: int): int {
    var result: int := MagnitudeProduct(Abs(a), Abs(b));
    if OppositeSigns(a, b) then -result else result
  }

  lemma ProductOfParts(ia: int, fa: int, ib: int, fb: int, p: int)
    ensures (ia * p + fa) * (ib * p + fb) == (ia * ib * p + fa * ib + fb * ia) * p + fa * fb
  {
    var x, y := ia * p, ib * p;
    assert (x + fa) * (y + fb) == x * y + x * fb + fa * y + fa * fb;
    Associate(ia, p, y);
    Associate(ia, ib, p);
    assert x * y == ia * ib * p * p by { assert p * y == ib * p * p; assert ia * (ib * p * p) == ia * ib * p * p; }
    assert x * fb == fb * ia * p;
    assert fa * y == fa * ib * p;
  }

  lemma MagnitudeProductIsFloor(va: nat, vb: nat)
    ensures MagnitudeProduct(va, vb) == va * vb / PRECISION
  {
    var ia, ib, fa, fb := va / PRECISION, vb / PRECISION, va % PRECISION, vb % PRECISION;
    var whole := ia * ib * PRECISION + fa * ib + fb * ia;
    ProductOfParts(ia, fa, ib, fb, PRECISION);
    assert va * vb == whole * PRECISION + fa * fb;
  }

  lemma SignOfProduct(a: int, b: int)
    ensures Abs(a) * Abs(b) == Abs(a * b)
    ensures OppositeSigns(a, b) <==> a * b < 0
  {
  }

  /** For all signs the result is the exact product truncated towards zero at six places. */
  lemma MultiplyTruncates(a: int, b: int)
    ensures Multiply(a, b) == Truncated(a * b, PRECISION)
  {
    MagnitudeProductIsFloor(Abs(a), Abs(b));
    SignOfProduct(a, b);
  }

  lemma FractionsAreSmall(fa: int, fb: int)
    requires 0 <= fa < PRECISION && 0 <= fb < PRECISION
    ensures 0 <= fa * fb < 1_000_000_000_000
  {
    MulMono(fa, 999_999, fb);
    MulMono(0, fa, fb);
  }

  /** No term is larger than the result, except the product of the fractions, which stays below 10^12. */
  lemma MultiplyFits(va: nat, vb: nat)
    ensures var ia, ib, fa, fb := va / PRECISION, vb / PRECISION, va % PRECISION, vb % PRECISION;
      var result := va * vb / PRECISION;
      && 0 <= ia * ib * PRECISION <= result
      && 0 <= fa * ib <= result && 0 <= fb * ia <= result
      && ia * ib * PRECISION + fa * ib + fb * ia <= result
      && 0 <= fa * fb < 1_000_000_000_000
  {
    MagnitudeProductIsFloor(va, vb);
    var ia, ib, fa, fb := va / PRECISION, vb / PRECISION, va % PRECISION, vb % PRECISION;
    MulMono(0, ia, ib);
    MulMono(0, fa, ib);
    MulMono(0, fb, ia);
    FractionsAreSmall(fa, fb);
  }

  // ---------------------------------------------------------------------------------------------
  // Division
  // ---------------------------------------------------------------------------------------------

  /** How often `va` is multiplied by ten before it reaches the target. */
  function ScaleUpSteps(va: nat): nat
    requires va > 0
    decreases TARGET_VALUE - va
  {
    if va < TARGET_VALUE then 1 + ScaleUpSteps(va * 10) else 0
  }

  /** How often `vb` is divided by ten before it is within the target. */
  function ScaleDownSteps(vb: nat): nat {
    if vb > TARGET_VALUE_B then 1 + ScaleDownSteps(vb / 10) else 0
  }

  function ScaledDown(vb: nat): nat {
    if vb > TARGET_VALUE_B then ScaledDown(vb / 10) else vb
  }

  /** The quotient brought from `shift` orders of magnitude to six. */
  function Rescaled(value: nat, shift: nat): nat {
    if shift >= PLACES then FloorDiv(value, Pow10(shift - PLACES)) else value * Pow10(PLACES - shift)
  }

  function FloorDiv(x: nat, d: nat): (q: nat)
    requires d > 0
    ensures q * d <= x < (q + 1) * d
  {
    DivBounds(x, d);
    x / d
  }

  function Quotient(va: nat, vb: nat): nat
    requires va > 0 && vb > 0
  {
    ScaledDownPositive(vb);
    var s, t := ScaleUpSteps(va), ScaleDownSteps(vb);
    Rescaled(FloorDiv(va * Pow10(s), ScaledDown(vb)), s + t)
  }

  function Divide(a: int, b: int): int
    requires a != 0 ==> b != 0
  {
    if a == 0 then a
    else
      var result: int := Quotient(Abs(a), Abs(b));
      if OppositeSigns(a, b) then -result else result
  }

  lemma {:induction false} ScaledDownPositive(vb: nat)
    ensures ScaledDown(vb) <= TARGET_VALUE_B
    ensures vb > 0 ==> ScaledDown(vb) > 0
    ensures ScaleDownSteps(vb) > 0 ==> ScaledDown(vb) >= 100_000
    decreases vb
  {
    if vb > TARGET_VALUE_B {
      ScaledDownPositive(vb / 10);
    }
  }

  lemma {:induction false} ScaledDownIsFloor(vb: nat)
    ensures var t, b := ScaleDownSteps(vb), ScaledDown(vb);
      b * Pow10(t) <= vb < (b + 1) * Pow10(t)
    decreases vb
  {
    if vb > TARGET_VALUE_B {
      ScaledDownIsFloor(vb / 10);
      var t, b := ScaleDownSteps(vb / 10), ScaledDown(vb / 10);
      Associate(b, Pow10(t), 10);
      Associate(b + 1, Pow10(t), 10);
    }
  }

  /** The scaled dividend reaches 10^13 and stays below 10^14, unless it was already there. */
  lemma {:induction false} ScaledUpFits(va: nat)
    requires va > 0
    ensures va * Pow10(ScaleUpSteps(va)) >= TARGET_VALUE
    ensures ScaleUpSteps(va) == 0 || va * Pow10(ScaleUpSteps(va)) < 10 * TARGET_VALUE
    ensures va < TARGET_VALUE ==> ScaleUpSteps(va) > 0
    decreases TARGET_VALUE - va
  {
    if va < TARGET_VALUE {
      ScaledUpFits(va * 10);
      var p := Pow10(ScaleUpSteps(va * 10));
      Associate(va, 10, p);
    }
  }

  lemma {:induction false} Pow10Sum(m: nat, n: nat)
    ensures Pow10(m + n) == Pow10(m) * Pow10(n)
  {
    if m > 0 {
      Pow10Sum(m - 1, n);
      Associate(10, Pow10(m - 1), Pow10(n));
    }
  }

  /** The scaled-down divisor is at most one part in a hundred thousand too small. */
  lemma DivisorError(vb: nat)
    requires vb > 0
    ensures var bm := ScaledDown(vb) * Pow10(ScaleDownSteps(vb));
      bm <= vb && vb * 100_000 <= bm * 100_001
  {
    ScaledDownPositive(vb);
    ScaledDownIsFloor(vb);
    var b, m := ScaledDown(vb), Pow10(ScaleDownSteps(vb));
    if ScaleDownSteps(vb) > 0 {
      assert (b + 1) * m == b * m + m;
      MulMono(100_000, b, m);
    }
  }

  /** With `q` the floor of `x/b` and `x*m == y*k`, dropping `k` from `q` gives the floor of `y/(b*m)`. */
  lemma ShiftedRight(x: nat, b: nat, m: nat, k: nat, y: nat)
    requires k > 0 && b > 0 && m > 0 && x * m == y * k
    ensures var r := FloorDiv(FloorDiv(x, b), k); r * (b * m) <= y < (r + 1) * (b * m)
  {
    var q := FloorDiv(x, b);
    var r := FloorDiv(q, k);
    MulMono(r * k, q, b);
    MulMono(r * k * b, x, m);
    Reorder(r, k, b, m);
    CancelLe(r * (b * m), y, k);
    MulMono(q + 1, (r + 1) * k, b);
    MulMonoStrict(x, (r + 1) * k * b, m);
    Reorder(r + 1, k, b, m);
    CancelLt(y, (r + 1) * (b * m), k);
  }

  /** With `q` the floor of `x/b` and `x*(m*k) == y`, `q*k` is `y/(b*m)` up to one part in ten million. */
  lemma ShiftedLeft(x: nat, b: nat, m: nat, k: nat, y: nat)
    requires k > 0 && b > 0 && m > 0 && x * (m * k) == y && FloorDiv(x, b) >= 10_000_000
    ensures var r := FloorDiv(x, b) * k;
      && r * (b * m) <= y
      && y * 9_999_999 < (r + 1) * (b * m) * 10_000_000
  {
    var q := FloorDiv(x, b);
    var r, bm := q * k, b * m;
    MulMono(q * b, x, m * k);
    Reorder(q, k, b, m);
    assert m * k > 0 by { MulMonoStrict(0, m, k); }
    MulMonoStrict(x, (q + 1) * b, m * k);
    Reorder(q + 1, k, b, m);
    assert (q + 1) * k == r + k;
    MulMono(10_000_000, q, k);
    assert bm >= 0 by { MulMono(0, b, m); }
    MulMono((r + k) * 9_999_999, (r + 1) * 10_000_000, bm);
    Associate(r + k, 9_999_999, bm);
    Associate(r + 1, 10_000_000, bm);
  }

  lemma LargeQuotient(x: nat, b: nat)
    requires x >= TARGET_VALUE && 0 < b <= TARGET_VALUE_B
    ensures FloorDiv(x, b) >= 10_000_000
  {
    MulMono(b, TARGET_VALUE_B, FloorDiv(x, b) + 1);
  }

  /** `10^s * 10^t` against `10^6`, on either side. */
  lemma ScalesMeet(va: nat, s: nat, t: nat)
    ensures s + t >= PLACES ==> va * Pow10(s) * Pow10(t) == va * PRECISION * Pow10(s + t - PLACES)
    ensures s + t < PLACES ==> va * Pow10(s) * (Pow10(t) * Pow10(PLACES - s - t)) == va * PRECISION
  {
    assert Pow10(PLACES) == PRECISION;
    if s + t >= PLACES {
      Pow10Sum(s, t);
      Pow10Sum(PLACES, s + t - PLACES);
      Associate(va, Pow10(s), Pow10(t));
      Associate(va, PRECISION, Pow10(s + t - PLACES));
    } else {
      Pow10Sum(t, PLACES - s - t);
      Pow10Sum(s, PLACES - s);
      Associate(va, Pow10(s), Pow10(PLACES - s));
    }
  }

  /** The result against the exact quotient by the scaled-down divisor. */
  lemma QuotientBracket(va: nat, vb: nat)
    requires va > 0 && vb > 0
    ensures var r, bm := Quotient(va, vb), ScaledDown(vb) * Pow10(ScaleDownSteps(vb));
      && r * bm <= va * PRECISION
      && va * PRECISION * 9_999_999 < (r + 1) * bm * 10_000_000
      && (ScaleUpSteps(va) + ScaleDownSteps(vb) >= PLACES ==> va * PRECISION < (r + 1) * bm)
  {
    hide Pow10;
    ScaledDownPositive(vb);
    ScaledUpFits(va);
    var s, t, b := ScaleUpSteps(va), ScaleDownSteps(vb), ScaledDown(vb);
    ScalesMeet(va, s, t);
    var x, m, y := va * Pow10(s), Pow10(t), va * PRECISION;
    if s + t >= PLACES {
      ShiftedRight(x, b, m, Pow10(s + t - PLACES), y);
    } else {
      LargeQuotient(x, b);
      ShiftedLeft(x, b, m, Pow10(PLACES - s - t), y);
    }
  }

  lemma ErrorFromBracket(r: nat, bm: nat, vb: nat, y: nat)
    requires r * bm <= y && y * 9_999_999 < (r + 1) * bm * 10_000_000
    requires bm <= vb && vb * 100_000 <= bm * 100_001
    ensures r * vb * 100_000 <= y * 100_001
    ensures y * 9_999_999 < (r + 1) * vb * 10_000_000
  {
    MulMono(vb * 100_000, bm * 100_001, r);
    Associate(vb, 100_000, r);
    Associate(bm, 100_001, r);
    MulMono(bm, vb, r + 1);
  }

  /** The error bound over the integers: with q = va*10^6/vb and r the result, r <= q(1+10^-5) and
      q(1-10^-7) < r+1. */
  lemma QuotientError(va: nat, vb: nat)
    requires va > 0 && vb > 0
    ensures var r := Quotient(va, vb);
      && r * vb * 100_000 <= va * PRECISION * 100_001
      && va * PRECISION * 9_999_999 < (r + 1) * vb * 10_000_000
  {
    hide Quotient, ScaledDown, Pow10;
    QuotientBracket(va, vb);
    DivisorError(vb);
    ErrorFromBracket(Quotient(va, vb), ScaledDown(vb) * Pow10(ScaleDownSteps(vb)), vb, va * PRECISION);
  }

  lemma CastProduct(r: int, v: int)
    ensures (r * v) as real == r as real * v as real
  {
  }

  lemma RealBounds(r: real, y: real, q: real, p: real, next: real, x: real)
    requires y > 0.0 && p == r * y && next == (r + 1.0) * y && x == q * y
    requires p * 100_000.0 <= x * 100_001.0 && x * 9_999_999.0 < next * 10_000_000.0
    ensures q * (1.0 - 0.0000001) - 1.0 < r <= q * (1.0 + 0.00001)
  {
    assert q * 1.00001 * y == x * 1.00001;
    RealCancelLe(r, q * 1.00001, y);
    assert q * 0.9999999 * y == x * 0.9999999;
    RealCancelLt(q * 0.9999999, r + 1.0, y);
  }

  lemma CastBounds(p: int, next: int, y: int)
    requires p * 100_000 <= y * 100_001 && y * 9_999_999 < next * 10_000_000
    ensures p as real * 100_000.0 <= y as real * 100_001.0
    ensures y as real * 9_999_999.0 < next as real * 10_000_000.0
  {
  }

  lemma IntegerBoundsAsReal(r: nat, vb: nat, p: int, next: int, y: int, q: real)
    requires vb > 0 && q * vb as real == y as real
    requires p == r * vb && next == (r + 1) * vb
    requires p * 100_000 <= y * 100_001 && y * 9_999_999 < next * 10_000_000
    ensures q * (1.0 - 0.0000001) - 1.0 < r as real <= q * (1.0 + 0.00001)
  {
    CastBounds(p, next, y);
    CastProduct(r, vb);
    CastProduct(r + 1, vb);
    assert (r + 1) as real == r as real + 1.0;
    RealBounds(r as real, vb as real, q, p as real, next as real, y as real);
  }

  lemma RealQuotient(x: real, y: real)
    requires y > 0.0
    ensures x / y * y == x
  {
  }

  /** The same bound as real numbers. */
  lemma QuotientErrorReal(va: nat, vb: nat)
    requires va > 0 && vb > 0
    ensures var r := Quotient(va, vb) as real;
      var q := va as real * 1_000_000.0 / vb as real;
      q * (1.0 - 0.0000001) - 1.0 < r <= q * (1.0 + 0.00001)
  {
    hide Quotient;
    QuotientError(va, vb);
    RealQuotient(va as real * 1_000_000.0, vb as real);
    var r := Quotient(va, vb);
    assert (va * PRECISION) as real == va as real * 1_000_000.0;
    IntegerBoundsAsReal(r, vb, r * vb, (r + 1) * vb, va * PRECISION, va as real * 1_000_000.0 / vb as real);
  }

  /** Below a dividend of 100 and up to a divisor of 1 nothing is lost but the places past the sixth. */
  lemma QuotientExact(va: nat, vb: nat)
    requires 0 < va < 100_000_000 && 0 < vb <= TARGET_VALUE_B
    ensures Quotient(va, vb) == va * PRECISION / vb
  {
    AtLeastSixSteps(va);
    QuotientBracket(va, vb);
    assert ScaleDownSteps(vb) == 0 && Pow10(0) == 1;
    DivUnique(va * PRECISION, vb, Quotient(va, vb));
  }

  // ---------------------------------------------------------------------------------------------
  // The signed division
  // ---------------------------------------------------------------------------------------------

  /** The quotient has the sign of the product of its operands, and the magnitude of the quotient of the magnitudes. */
  lemma DivideSign(a: int, b: int)
    requires b != 0
    ensures a * b < 0 ==> Divide(a, b) <= 0
    ensures a * b > 0 ==> Divide(a, b) >= 0
    ensures a != 0 ==> Abs(Divide(a, b)) == Quotient(Abs(a), Abs(b))
    ensures a == 0 ==> Divide(a, b) == 0
  {
    hide Quotient;
    SignOfProduct(a, b);
    if a > 0 && b > 0 {
      MulMonoStrict(0, a, b);
    }
  }

  /** The error bound for all signs. */
  lemma DivideError(a: int, b: int)
    requires b != 0
    ensures var r := Abs(Divide(a, b)) as real;
      var q := Abs(a) as real * 1_000_000.0 / Abs(b) as real;
      q * (1.0 - 0.0000001) - 1.0 < r <= q * (1.0 + 0.00001)
  {
    hide Divide, Quotient;
    DivideSign(a, b);
    if a == 0 {
      assert 0.0 / Abs(b) as real == 0.0;
    } else {
      QuotientErrorReal(Abs(a), Abs(b));
    }
  }

  /** For a dividend below 100 and a divisor up to 1, either of any sign, the result is exact but for the places past
      the sixth, which are cut toward zero. */
  lemma DivideExact(a: int, b: int)
    requires Abs(a) < 100_000_000 && 0 < Abs(b) <= 1_000_000
    ensures Divide(a, b) == if b > 0 then Truncated(a * 1_000_000, b) else Truncated(-a * 1_000_000, -b)
  {
    hide Quotient;
    if a != 0 {
      QuotientExact(Abs(a), Abs(b));
    }
  }

  /** The scaling, in one step: with `s` the least number of zeros that brings the dividend to 10^13, and `t` the least
      number of digits that must go from the divisor to bring it to 10^6, the result is the quotient of the two brought
      back to six places, rounded down twice. */
  lemma QuotientValue(va: nat, vb: nat, s: nat, t: nat)
    requires va > 0 && vb > 0
    requires va * Pow10(s) >= 10_000_000_000_000 && (s > 0 ==> va * Pow10(s - 1) < 10_000_000_000_000)
    requires vb / Pow10(t) <= 1_000_000 && (t > 0 ==> vb / Pow10(t - 1) > 1_000_000)
    ensures vb / Pow10(t) > 0
    ensures var q := va * Pow10(s) / (vb / Pow10(t));
      Quotient(va, vb) == if s + t >= 6 then q / Pow10(s + t - 6) else q * Pow10(6 - s - t)
  {
    hide Pow10;
    LeastScaleUp(va, s);
    LeastScaleDown(vb, t);
    ScaledDownPositive(vb);
  }

  lemma {:induction false} LeastScaleUp(va: nat, s: nat)
    requires va > 0
    requires va * Pow10(s) >= TARGET_VALUE && (s > 0 ==> va * Pow10(s - 1) < TARGET_VALUE)
    ensures ScaleUpSteps(va) == s
    decreases s
  {
    if s > 0 {
      MulMono(1, Pow10(s - 1), va);
      assert va * 1 <= va * Pow10(s - 1);
      Associate(va, 10, Pow10(s - 1));
      if s > 1 {
        Associate(va, 10, Pow10(s - 2));
      }
      LeastScaleUp(va * 10, s - 1);
    }
  }

  lemma {:induction false} LeastScaleDown(vb: nat, t: nat)
    requires vb / Pow10(t) <= TARGET_VALUE_B && (t > 0 ==> vb / Pow10(t - 1) > TARGET_VALUE_B)
    ensures ScaleDownSteps(vb) == t && ScaledDown(vb) == vb / Pow10(t)
    decreases t
  {
    if t > 0 {
      QuotientIsNotGreater(vb, Pow10(t - 1));
      DivTwice(vb, 10, Pow10(t - 1));
      if t > 1 {
        DivTwice(vb, 10, Pow10(t - 2));
      }
      LeastScaleDown(vb / 10, t - 1);
    }
  }

  lemma QuotientIsNotGreater(x: nat, d: nat)
    requires d > 0
    ensures x / d <= x
  {
    DivBounds(x, d);
    MulMono(1, d, x / d);
  }

  lemma {:induction false} FewStepsStaySmall(va: nat, s: nat)
    requires 0 < va && s == ScaleUpSteps(va) <= 5
    ensures va >= 100_000_000
  {
    ScaledUpFits(va);
    Pow10Sum(s, 5 - s);
    assert Pow10(5) == 100_000;
    MulMono(1, Pow10(5 - s), Pow10(s));
    MulMono(Pow10(s), 100_000, va);
  }

  lemma AtLeastSixSteps(va: nat)
    requires 0 < va < 100_000_000
    ensures ScaleUpSteps(va) >= PLACES
  {
    if ScaleUpSteps(va) < PLACES {
      FewStepsStaySmall(va, ScaleUpSteps(va));
    }
  }

  lemma PartialProductFits(q: nat, j: nat, rest: nat)
    ensures q * Pow10(j) <= q * Pow10(j + rest)
  {
    Pow10Sum(j, rest);
    MulMono(1, Pow10(rest), Pow10(j));
    MulMono(Pow10(j), Pow10(j + rest), q);
  }

  lemma FloorDivFits(x: nat, b: nat)
    requires b > 0
    ensures FloorDiv(x, b) <= x
  {
    MulMono(1, b, FloorDiv(x, b));
  }

  /** If the result fits 64 bits, so does everything on the way to it. */
  lemma DivideFits(va: nat, vb: nat, j: nat)
    requires 0 < va <= INT64_MAX && 0 < vb <= INT64_MAX && Quotient(va, vb) <= INT64_MAX
    ensures va * Pow10(ScaleUpSteps(va)) <= INT64_MAX
    ensures ScaledDown(vb) > 0
    ensures var s, t := ScaleUpSteps(va), ScaleDownSteps(vb);
      var q := FloorDiv(va * Pow10(s), ScaledDown(vb));
      q <= INT64_MAX && (s + t + j <= PLACES ==> q * Pow10(j) <= INT64_MAX)
  {
    hide Pow10, FloorDiv, ScaledDown;
    ScaledUpFits(va);
    ScaledDownPositive(vb);
    var s, t := ScaleUpSteps(va), ScaleDownSteps(vb);
    UnscaledFits(va, s);
    var q := FloorDiv(va * Pow10(s), ScaledDown(vb));
    FloorDivFits(va * Pow10(s), ScaledDown(vb));
    if s + t + j <= PLACES {
      PartialProductFits(q, j, PLACES - s - t - j);
      if s + t == PLACES {
        UnscaledFits(q, j);
      }
    }
  }

  lemma UnscaledFits(v: nat, s: nat)
    ensures s == 0 ==> v * Pow10(s) == v
  {
  }

  lemma NestedFloor(x: nat, k: nat)
    ensures x / Pow10(k) / 10 == x / Pow10(k + 1)
  {
    var p := Pow10(k);
    var a := x / p;
    var c := a / 10;
    DivBounds(x, p);
    MulMono(10 * c, a, p);
    MulMono(a + 1, 10 * (c + 1), p);
    Associate(c, 10, p);
    Associate(c + 1, 10, p);
    DivUnique(x, 10 * p, c);
  }

  /** The division as the source does it, with its four scaling loops. */
  method DivideDecimal(a: int, b: int) returns (r: int)
    requires a != 0 ==> b != 0
    ensures r == Divide(a, b)
  {
    var va := if a > 0 then a else -a;
    var vb := if b > 0 then b else -b;
    if va == 0 {
      return a;
    }
    ghost var va0, vb0 := va, vb;
    var shift := 0;
    while va < TARGET_VALUE
      invariant 0 < va0 && 0 < va && shift >= 0
      invariant va == va0 * Pow10(shift) && ScaleUpSteps(va0) == shift + ScaleUpSteps(va)
      decreases TARGET_VALUE - va
    {
      Associate(va0, Pow10(shift), 10);
      va := va * 10;
      shift := shift + 1;
    }
    ghost var s := shift;
    ScaledDownPositive(vb);
    while vb > TARGET_VALUE_B
      invariant 0 < vb && shift >= s
      invariant ScaledDown(vb) == ScaledDown(vb0) && s + ScaleDownSteps(vb0) == shift + ScaleDownSteps(vb)
      decreases vb
    {
      vb := vb / 10;
      shift := shift + 1;
    }
    var value := va / vb;
    assert value == FloorDiv(va, vb);
    ghost var total := shift;
    ghost var q: nat := value;
    while shift > 6
      invariant 0 <= shift <= total && (shift >= 6 || shift == total)
      invariant value == q / Pow10(total - shift)
      decreases shift
    {
      NestedFloor(q, total - shift);
      value := value / 10;
      shift := shift - 1;
    }
    ghost var from, v := shift, value;
    while shift < 6
      invariant from <= shift <= 6 && value == v * Pow10(shift - from)
    {
      Associate(v, Pow10(shift - from), 10);
      value := value * 10;
      shift := shift + 1;
    }
    assert value == Rescaled(q, total);
    r := value;
    if (a < 0 && b > 0) || (b < 0 && a > 0) {
      r := -r;
    }
  }
}
