/** Bytes, division toward zero, and the few facts about products and quotients that the solver does not find by
  itself. */
module Arithmetic {

  type Byte = x: int | 0 <= x < 256

  function Min(a: int, b: int): int {
    if a < b then a else b
  }

  function Max(a: int, b: int): int {
    if a < b then b else a
  }

  /** Division of the source language: toward zero. */
  function Truncated(a: int, b: int): int
    requires b > 0
  {
    if a >= 0 then a / b else -(-a / b)
  }

  lemma MulMono(x: int, y: int, k: int)
    requires x <= y && 0 <= k
    ensures x * k <= y * k
  {
  }

  lemma MulMonoStrict(x: int, y: int, k: int)
    requires x < y && 0 < k
    ensures x * k < y * k
  {
  }

  lemma CancelLe(x: int, y: int, k: int)
    requires x * k <= y * k && 0 < k
    ensures x <= y
  {
    if y < x {
      MulMonoStrict(y, x, k);
    }
  }

  lemma CancelLt(x: int, y: int, k: int)
    requires x * k < y * k && 0 < k
    ensures x < y
  {
    if y <= x {
      MulMono(y, x, k);
    }
  }

  lemma DivBounds(x: int, d: int)
    requires d > 0
    ensures x / d * d <= x < (x / d + 1) * d
    ensures x >= 0 ==> x / d >= 0
  {
    var q, r := x / d, x % d;
    assert x == q * d + r && 0 <= r < d;
    assert (q + 1) * d == q * d + d;
  }

  lemma DivUnique(x: int, d: int, q: int)
    requires d > 0 && q * d <= x < (q + 1) * d
    ensures x / d == q
  {
    DivBounds(x, d);
    CancelLt(q, x / d + 1, d);
    CancelLt(x / d, q + 1, d);
  }

  lemma DivMono(a: nat, b: nat, c: nat)
    requires a <= b && c > 0
    ensures a / c <= b / c
  {
    DivBounds(a, c);
    DivBounds(b, c);
    if a / c > b / c {
      MulMono(b / c + 1, a / c, c);
    }
  }

  /** Dividing twice is dividing by the product. */
  lemma DivTwice(x: nat, d: nat, e: nat)
    requires d > 0 && e > 0
    ensures d * e > 0 && x / d / e == x / (d * e)
  {
    var q := x / d;
    DivBounds(x, d);
    DivBounds(q, e);
    MulMono(q / e * e, q, d);
    MulMono(q + 1, (q / e + 1) * e, d);
    Associate(q / e, e, d);
    Associate(q / e + 1, e, d);
    MulMono(1, e, d);
    DivUnique(x, d * e, q / e);
  }

  lemma Reorder(r: int, k: int, b: int, m: int)
    ensures r * k * b * m == r * (b * m) * k
    ensures r * b * (m * k) == r * k * (b * m)
  {
    calc {
      r * k * b * m;
    ==
      r * k * (b * m);
    ==
      r * (b * m) * k;
    }
    calc {
      r * b * (m * k);
    ==
      r * b * m * k;
    ==
      r * (b * m) * k;
    }
  }

  lemma Associate(x: int, y: int, z: int)
    ensures x * y * z == x * (y * z) == x * z * y
  {
  }

  lemma RealMulMono(x: real, y: real, k: real)
    requires x <= y && 0.0 <= k
    ensures x * k <= y * k
  {
  }

  lemma RealCancelLe(x: real, y: real, k: real)
    requires x * k <= y * k && 0.0 < k
    ensures x <= y
  {
  }

  lemma RealCancelLt(x: real, y: real, k: real)
    requires x * k < y * k && 0.0 < k
    ensures x < y
  {
    if y <= x {
      RealMulMono(y, x, k);
    }
  }
}
