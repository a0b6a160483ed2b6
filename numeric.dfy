/** Python's numeric built-ins as the viewer uses them: `int()` on a float
    (truncation toward zero), `round()` (ties to even), `math.pow(2, n)` and the
    integer part of `math.log(k, 2)`, all over exact reals. */
module Numeric {

  function Min(a: int, b: int): int { if a <= b then a else b }
  function Max(a: int, b: int): int { if a >= b then a else b }
  function MinR(a: real, b: real): real { if a <= b then a else b }
  function MaxR(a: real, b: real): real { if a >= b then a else b }

  /** Python `int(r)` for a float `r`: drops the fraction, toward zero. */
  function Trunc(r: real): (n: int)
    ensures 0.0 <= r ==> n as real <= r < n as real + 1.0
    ensures r < 0.0 ==> n as real - 1.0 < r <= n as real
  {
    if r >= 0.0 then r.Floor else -((-r).Floor)
  }

  /** `int(r) > 0` holds exactly when `r >= 1`. */
  lemma TruncPositive(r: real)
    ensures Trunc(r) > 0 <==> r >= 1.0
  {
  }

  /** Truncation of sums of non-negative reals never gains: int(a) + int(b) <= int(a + b). */
  lemma TruncSuperadditive(a: real, b: real)
    requires 0.0 <= a && 0.0 <= b
    ensures Trunc(a) + Trunc(b) <= Trunc(a + b)
  {
  }

  /** Truncation is monotone. */
  lemma TruncMonotone(a: real, b: real)
    requires a <= b
    ensures Trunc(a) <= Trunc(b)
  {
  }

  /** Python 3 `round(r)`: nearest integer, halves go to the even neighbour. */
  function RoundHalfEven(r: real): (n: int)
    ensures r - 0.5 <= n as real <= r + 0.5
    ensures (n as real == r - 0.5 || n as real == r + 0.5) ==> n % 2 == 0
  {
    var f := r.Floor;
    var frac := r - f as real;
    if frac < 0.5 then f
    else if frac > 0.5 then f + 1
    else if f % 2 == 0 then f else f + 1
  }

  /** The zoom-out limit `round(x) < 30` is the same test as `x < 29.5`: the tie
      29.5 rounds up to the even 30. */
  lemma RoundBelowThirty(r: real)
    ensures RoundHalfEven(r) < 30 <==> r < 29.5
  {
    var n := RoundHalfEven(r);
    if r < 29.5 {
      assert n as real <= r + 0.5 < 30.0;
    } else if r == 29.5 {
      assert n == 29 || n == 30;
      assert n == 30;
    } else {
      assert n as real >= r - 0.5 > 29.0;
    }
  }

  /** 2^e as an exact real, for any integer exponent. */
  function Pow2(e: int): (p: real)
    ensures p > 0.0
    decreases if e >= 0 then e else -e
  {
    if e == 0 then 1.0
    else if e > 0 then 2.0 * Pow2(e - 1)
    else Pow2(e + 1) / 2.0
  }

  lemma {:induction false} Pow2Step(e: int)
    ensures Pow2(e + 1) == 2.0 * Pow2(e)
  {
    if e < 0 && e + 1 != 0 {
      assert Pow2(e) == Pow2(e + 1) / 2.0;
    }
  }

  lemma {:induction false} Pow2Monotone(a: int, b: int)
    requires a <= b
    ensures Pow2(a) <= Pow2(b)
    decreases b - a
  {
    if a < b {
      Pow2Step(a);
      Pow2Monotone(a + 1, b);
    }
  }

  /** 2^n as a natural number. */
  function Exp2(n: nat): (p: nat)
    ensures p >= 1
  {
    if n == 0 then 1 else 2 * Exp2(n - 1)
  }

  lemma {:induction false} Pow2OfNat(n: nat)
    ensures Pow2(n) == Exp2(n) as real
  {
    if n > 0 {
      Pow2OfNat(n - 1);
    }
  }

  /** `e` is `int(log2 k)`: the logarithm truncated toward zero. */
  ghost predicate IsTruncLog2(k: real, e: int)
  {
    if k >= 1.0 then 0 <= e && Pow2(e) <= k < Pow2(e + 1)
    else e <= 0 && Pow2(e - 1) < k <= Pow2(e)
  }

  lemma HalfFloorDecreases(x: real)
    requires x >= 1.0
    ensures 0 <= (x / 2.0).Floor < x.Floor
  {
  }

  /** Python `int(math.log(k, 2))` over exact reals. */
  function Log2Trunc(k: real): (e: int)
    requires k > 0.0
    ensures IsTruncLog2(k, e)
    decreases (if k >= 1.0 then k else 1.0 / k).Floor
  {
    if k >= 2.0 then
      HalfFloorDecreases(k);
      var e' := Log2Trunc(k / 2.0);
      Pow2Step(e');
      Pow2Step(e' + 1);
      e' + 1
    else if k >= 1.0 then
      0
    else if k > 0.5 then
      0
    else if k == 0.5 then
      -1
    else
      HalfFloorDecreases(1.0 / k);
      assert 1.0 / (2.0 * k) == (1.0 / k) / 2.0;
      var e' := Log2Trunc(2.0 * k);
      Pow2Step(e' - 2);
      Pow2Step(e' - 1);
      e' - 1
  }

  /** A larger argument never has a smaller truncated logarithm. */
  lemma Log2TruncMonotone(k1: real, k2: real)
    requires 0.0 < k1 <= k2
    ensures Log2Trunc(k1) <= Log2Trunc(k2)
  {
    var e1, e2 := Log2Trunc(k1), Log2Trunc(k2);
    if e1 > e2 {
      if k1 >= 1.0 {
        Pow2Monotone(e2 + 1, e1);
        assert false;
      } else {
        Pow2Monotone(e2, e1 - 1);
        assert false;
      }
    }
  }

  /** `int(log2 k) >= 1` exactly when `k >= 2`. */
  lemma Log2TruncPositive(k: real)
    requires k > 0.0
    ensures Log2Trunc(k) >= 1 <==> k >= 2.0
  {
    var e := Log2Trunc(k);
    if e >= 1 {
      Pow2Monotone(1, e);
    } else if k >= 2.0 {
      Pow2Monotone(e + 1, 1);
    }
  }

  /** Integer division by a positive divisor is the truncated exact quotient. */
  lemma TruncQuotient(a: nat, b: nat)
    requires b >= 1
    ensures Trunc(a as real / b as real) == a / b
  {
    var q, r := a / b, a % b;
    assert a == q * b + r;
    assert (a as real) / (b as real) == q as real + (r as real) / (b as real);
    assert 0.0 <= (r as real) / (b as real) < 1.0;
  }

  /** Halving twice is dividing by the product: (a / b) / c == a / (b * c). */
  lemma DivDiv(a: nat, b: nat, c: nat)
    requires b >= 1 && c >= 1
    ensures (a / b) / c == a / (b * c)
  {
    var q1, r1 := a / b, a % b;
    var q2, r2 := q1 / c, q1 % c;
    assert q1 == q2 * c + r2;
    assert q1 * b == q2 * (b * c) + r2 * b by {
      MulDistributes(q2 * c, r2, b);
      assert (q2 * c) * b == q2 * (b * c);
    }
    assert r2 * b <= (c - 1) * b by {
      MulMonotone(r2, c - 1, b);
    }
    assert (c - 1) * b == b * c - b by {
      MulDistributes(c, -1, b);
    }
    DivUnique(a, b * c, q2, r2 * b + r1);
  }

  lemma MulDistributes(x: int, y: int, m: int)
    ensures (x + y) * m == x * m + y * m
  {
  }

  lemma MulMonotone(x: int, y: int, m: nat)
    requires x <= y
    ensures x * m <= y * m
  {
    MulDistributes(x, y - x, m);
  }

  lemma RealMulMonotone(x: real, y: real, m: real)
    requires x <= y && 0.0 <= m
    ensures x * m <= y * m
  {
    assert y * m - x * m == (y - x) * m;
  }

  lemma RealMulMonotoneStrict(x: real, y: real, m: real)
    requires x < y && m > 0.0
    ensures x * m < y * m
  {
    assert y * m - x * m == (y - x) * m;
  }

  /** Quotient and remainder are unique. */
  lemma DivUnique(a: int, d: int, q: int, r: int)
    requires d >= 1 && a == q * d + r && 0 <= r < d
    ensures a / d == q
  {
    var q' := a / d;
    var r' := a % d;
    assert a == q' * d + r';
    assert (q - q') * d == r' - r by {
      MulDistributes(q, -q', d);
    }
    assert (q' - q) * d == r - r' by {
      MulDistributes(q', -q, d);
    }
    if q' < q {
      MulMonotone(1, q - q', d);
      assert false;
    } else if q' > q {
      MulMonotone(1, q' - q, d);
      assert false;
    }
  }
}
