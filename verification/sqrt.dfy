/** The two integer square roots that share the name `fixed_sqrt`: binary search, and Newton iteration on a product. */
module Sqrt {
  import opened Wrappers
  import opened Arith
  import opened FixedMath

  /** `r` is the floor of the square root of `value`. */
  predicate IsSqrt(r: int, value: int) {
    r >= 0 && r * r <= value < (r + 1) * (r + 1)
  }

  lemma SquareMonotone(a: nat, b: nat)
    requires a <= b
    ensures a * a <= b * b
  {
    MulMonotone(a, b, a);
    MulMonotone(a, b, b);
  }

  lemma SqrtUnique(r: int, s: int, value: int)
    requires IsSqrt(r, value) && IsSqrt(s, value)
    ensures r == s
  {
    if r < s {
      SquareMonotone(r + 1, s);
    }
    if s < r {
      SquareMonotone(s + 1, r);
    }
  }

  /** The root of one billion, which is what `fixed_sqrt(1, 1_000_000_000)` returns, is not zero. */
  lemma RootOfOneBillion(r: int)
    ensures IsSqrt(r, 1 * 1_000_000_000) <==> r == 31_622
  {
    assert IsSqrt(31_622, 1_000_000_000);
    if IsSqrt(r, 1_000_000_000) {
      SqrtUnique(r, 31_622, 1_000_000_000);
    }
  }

  /** The search keeps the root between `low` and `high`; every intermediate value fits `i128`, and squaring the
      midpoint is checked. */
  method SqrtSearch(value: i128) returns (r: Checked)
    ensures value < 0 ==> r == Err(NegativeInput)
    ensures value >= 0 ==> r.Ok? && IsSqrt(r.value, value)
  {
    if value < 0 {
      return Err(NegativeInput);
    }
    if value < 2 {
      return Ok(value);
    }
    var low: i128, high: i128 := 1, value;
    assert value < (value + 1) * (value + 1) by {
      MulMonotone(1, value + 1, value + 1);
    }
    while low < high
      invariant 1 <= low <= high <= value
      invariant low * low <= value < (high + 1) * (high + 1)
      decreases high - low
    {
      var width: i128 := high - low + 1;
      var mid: i128 := low + width / 2;
      if FitsI128(mid * mid) && mid * mid <= value {
        low := mid;
      } else {
        SquareMonotone(0, mid);
        high := mid - 1;
      }
    }
    return Ok(low);
  }

  // ----- Newton iteration

  /** 128 less the number of leading zeros: the smallest `n` with `x < 2^n`. */
  function BitLength(x: nat): (n: nat)
    ensures x < Pow2(n)
    ensures n > 0 ==> Pow2(n - 1) <= x
    ensures x == 0 ==> n == 0
  {
    if x == 0 then 0 else BitLength(x / 2) + 1
  }

  lemma TwiceProduct(a: int, b: int)
    ensures (2 * a) * b == 2 * (a * b)
  {
  }

  lemma {:induction false} Pow2Adds(m: nat, n: nat)
    ensures Pow2(m) * Pow2(n) == Pow2(m + n)
  {
    if m > 0 {
      Pow2Adds(m - 1, n);
      TwiceProduct(Pow2(m - 1), Pow2(n));
    }
  }

  lemma {:induction false} Pow2Monotone(m: nat, n: nat)
    requires m <= n
    ensures Pow2(m) <= Pow2(n)
  {
    if m < n {
      Pow2Monotone(m, n - 1);
    }
  }

  lemma Pow2Of64()
    ensures Pow2(64) == 0x1_0000_0000_0000_0000
  {
    var n := 8;
    assert Pow2(8) == 0x100;
    Pow2Adds(n, n);
    Pow2Adds(2 * n, 2 * n);
    Pow2Adds(4 * n, 4 * n);
  }

  lemma Pow2Of127()
    ensures Pow2(127) == I128_MAX + 1
  {
    Pow2Of64();
    Pow2Adds(64, 64);
    assert Pow2(128) == 2 * Pow2(127);
  }

  lemma BitLengthBound(radicand: nat)
    requires radicand <= I128_MAX
    ensures BitLength(radicand) <= 127
  {
    Pow2Of127();
    if BitLength(radicand) >= 128 {
      Pow2Monotone(127, BitLength(radicand) - 1);
    }
  }

  /** A value of at most 127 bits starts from at most `2^64`, and the square of the start exceeds the value. */
  lemma InitialGuess(radicand: nat)
    requires 1 <= radicand <= I128_MAX
    ensures var x := Pow2((BitLength(radicand) + 1) / 2);
            x <= 0x1_0000_0000_0000_0000 && radicand < x * x
  {
    var n := BitLength(radicand);
    var shift := (n + 1) / 2;
    BitLengthBound(radicand);
    Pow2Monotone(shift, 64);
    Pow2Of64();
    Pow2Adds(shift, shift);
    Pow2Monotone(n, 2 * shift);
  }

  /** A Newton step never goes below the root: `(x + q) / 2 + 1` squared exceeds the radicand. */
  lemma NewtonStaysAbove(radicand: nat, x: nat)
    requires x > 0
    ensures var next := (x + radicand / x) / 2;
            radicand < (next + 1) * (next + 1)
  {
    var q := radicand / x;
    var next := (x + q) / 2;
    DivBounds(radicand, x);
    var a, b := x - (next + 1), q + 1 - (next + 1);
    assert a + b <= 0;
    assert (q + 1) * x == (next + 1) * (next + 1) + (next + 1) * (a + b) + a * b;
    MulMonotone(a + b, 0, next + 1);
    ProductOfOpposites(a, b);
  }

  lemma ProductOfOpposites(a: int, b: int)
    requires a + b <= 0 && a + b >= -1
    ensures a * b <= 0
  {
    if a >= 1 {
      MulMonotone(1, a, -b);
      assert a * b == -(a * (-b));
    } else if a < 0 {
      MulMonotone(0, -a, b);
      assert a * b == -((-a) * b);
    }
  }

  /** `fixed_sqrt(val, scale)`: the floor of the square root of `val * scale`. */
  method SqrtNewton(val: i128, scale: i128) returns (r: Checked)
    ensures val < 0 || scale <= 0 ==> r == Err(InvalidScale)
    ensures val >= 0 && scale > 0 && val * scale > I128_MAX ==> r == Err(Overflow)
    ensures val >= 0 && scale > 0 && val * scale <= I128_MAX ==> r.Ok? && IsSqrt(r.value, val * scale)
  {
    if val < 0 || scale <= 0 {
      return Err(InvalidScale);
    }
    if val == 0 {
      return Ok(0);
    }
    MulMonotone(1, val, scale);
    if !FitsI128(val * scale) {
      return Err(Overflow);
    }
    var x := NewtonRoot(val * scale);
    return Ok(x);
  }

  /** The iteration, from the power-of-two estimate down to the root. */
  method NewtonRoot(radicand: i128) returns (x: i128)
    requires radicand >= 1
    ensures IsSqrt(x, radicand)
  {
    InitialGuess(radicand);
    var shift := (BitLength(radicand) + 1) / 2;
    x := Pow2(shift);
    SquareMonotone(x, x + 1);
    while true
      invariant Above(x, radicand)
      decreases x
    {
      NewtonRound(radicand, x);
      var quotient: i128 := Quotient(radicand, x);
      var next: i128 := (x + quotient) / 2;
      if next >= x {
        break;
      }
      x := next;
    }
  }

  /** The estimate is at most `2^64` and not below the root. */
  ghost predicate Above(x: int, radicand: int) {
    1 <= x <= 0x1_0000_0000_0000_0000 && radicand < (x + 1) * (x + 1)
  }

  /** `checked_div` of a non-negative radicand by a positive estimate. */
  function Quotient(radicand: nat, x: nat): int
    requires x > 0
  {
    radicand / x
  }

  /** One round of the iteration stays within `i128` and not below the root, and stops at the root. */
  lemma NewtonRound(radicand: nat, x: nat)
    requires 1 <= radicand <= I128_MAX && Above(x, radicand)
    ensures 0 <= Quotient(radicand, x) <= x + 2
    ensures var next := (x + Quotient(radicand, x)) / 2;
            if next >= x then IsSqrt(x, radicand) else Above(next, radicand)
  {
    QuotientFits(radicand, x);
    NewtonStep(radicand, x);
  }

  /** Neither the quotient nor its sum with the estimate leaves `i128`. */
  lemma QuotientFits(radicand: nat, x: nat)
    requires 1 <= radicand <= I128_MAX && 1 <= x <= 0x1_0000_0000_0000_0000 && radicand < (x + 1) * (x + 1)
    ensures 0 <= radicand / x <= x + 2
  {
    DivMonotone(0, radicand, x);
    DivUnique(0, x, 0);
    DivBounds(radicand, x);
    if radicand / x >= x + 3 {
      MulMonotone(x + 3, radicand / x, x);
    }
  }

  /** Above the root a step goes down without passing it; when it does not go down, the estimate is the root. */
  lemma NewtonStep(radicand: nat, x: nat)
    requires radicand >= 1 && x >= 1 && radicand < (x + 1) * (x + 1)
    ensures var next := (x + radicand / x) / 2;
            && next >= 1
            && radicand < (next + 1) * (next + 1)
            && (next >= x ==> IsSqrt(x, radicand))
  {
    var q := radicand / x;
    DivMonotone(0, radicand, x);
    DivUnique(0, x, 0);
    DivBounds(radicand, x);
    if x == 1 {
      DivUnique(radicand, 1, radicand);
    }
    NewtonStaysAbove(radicand, x);
    if (x + q) / 2 >= x {
      MulMonotone(x, q, x);
    }
  }
}
