/**
  Checked fixed-point arithmetic on `i128`: multiplication followed by division in three roundings, the scaled
  operations built on it, and the Dutch auction price.
 */
module FixedMath {
  import opened Wrappers
  import opened Arith

  datatype FixedPointError = Overflow | DivisionByZero | InvalidScale | NegativeInput

  type Checked = Result<i128, FixedPointError>

  /** The division of the source language, which truncates toward zero. */
  function TruncDiv(a: int, b: int): int
    requires b != 0
  {
    var q := Abs(a) / Abs(b);
    if (a >= 0) == (b > 0) then q else -q
  }

  function TruncRem(a: int, b: int): int
    requires b != 0
  {
    a - TruncDiv(a, b) * b
  }

  function Abs(x: int): int {
    if x >= 0 then x else -x
  }

  function CheckedInt(x: int): Checked {
    if FitsI128(x) then Ok(x) else Err(Overflow)
  }

  /** `checked_div` and `checked_rem` fail on zero and on `MIN / -1`. */
  predicate Divides(a: int, b: int) {
    b != 0 && FitsI128(TruncDiv(a, b))
  }

  function MulDiv(a: i128, b: i128, denominator: i128): Checked {
    if denominator == 0 then
      Err(DivisionByZero)
    else if !FitsI128(a * b) || !Divides(a * b, denominator) then
      Err(Overflow)
    else
      Ok(TruncDiv(a * b, denominator))
  }

  function MulDivUp(a: i128, b: i128, denominator: i128): Checked {
    if denominator == 0 then
      Err(DivisionByZero)
    else if !FitsI128(a * b) || !Divides(a * b, denominator) then
      Err(Overflow)
    else
      var quotient, remainder := TruncDiv(a * b, denominator), TruncRem(a * b, denominator);
      if remainder == 0 then
        Ok(quotient)
      else if (remainder > 0) == (denominator > 0) then
        CheckedInt(quotient + 1)
      else
        Ok(quotient)
  }

  function MulDivNearest(a: i128, b: i128, denominator: i128): Checked {
    if denominator == 0 then
      Err(DivisionByZero)
    else if !FitsI128(a * b) || !Divides(a * b, denominator) then
      Err(Overflow)
    else
      var quotient, remainder := TruncDiv(a * b, denominator), TruncRem(a * b, denominator);
      if remainder == 0 then
        Ok(quotient)
      else if !FitsI128(Abs(remainder)) || !FitsI128(Abs(denominator)) || !FitsI128(2 * Abs(remainder)) then
        Err(Overflow)
      else if 2 * Abs(remainder) >= Abs(denominator) then
        if (remainder > 0) == (denominator > 0) then CheckedInt(quotient + 1) else CheckedInt(quotient - 1)
      else
        Ok(quotient)
  }

  // ----- what the roundings mean

  function Exact(p: int, d: int): real
    requires d != 0
  {
    p as real / d as real
  }

  /** `r` is `x` rounded toward zero. */
  predicate IsTruncation(r: int, x: real) {
    if x >= 0.0 then 0 <= r && r as real <= x < r as real + 1.0 else r <= 0 && r as real - 1.0 < x <= r as real
  }

  /** `r` is `x` rounded up. */
  predicate IsCeiling(r: int, x: real) {
    r as real - 1.0 < x <= r as real
  }

  /** `r` is `x` rounded to the nearest integer, ties away from zero. */
  predicate IsNearest(r: int, x: real) {
    if x >= 0.0 then r as real - 0.5 <= x < r as real + 0.5 else r as real - 0.5 < x <= r as real + 0.5
  }

  /** The truncated quotient and its remainder: the remainder has the sign of the dividend and is smaller than the
      divisor. */
  lemma TruncDivParts(p: int, d: int)
    requires d != 0
    ensures p == TruncDiv(p, d) * d + TruncRem(p, d)
    ensures Abs(TruncRem(p, d)) < Abs(d)
    ensures p >= 0 ==> TruncRem(p, d) >= 0
    ensures p <= 0 ==> TruncRem(p, d) <= 0
    ensures (p >= 0) == (d > 0) ==> TruncDiv(p, d) >= 0
    ensures (p >= 0) != (d > 0) ==> TruncDiv(p, d) <= 0
  {
    var n, m := Abs(p), Abs(d);
    var q := n / m;
    DivBounds(n, m);
    DivMonotone(0, n, m);
    DivUnique(0, m, 0);
    MulDistributes(q, 1, m);
    MulDistributes(0, q, d);
    assert q * (-d) == -(q * d);
    assert (-q) * d == -(q * d);
  }

  /** The exact quotient lies between integers when the dividend does. */
  lemma ExactSplits(p: int, d: int, q: int, r: int)
    requires d != 0 && p == q * d + r
    ensures Exact(p, d) == q as real + r as real / d as real
  {
    assert (q * d) as real == q as real * d as real;
  }

  lemma ExactSign(p: int, d: int)
    requires d != 0
    ensures Exact(p, d) > 0.0 <==> (p > 0 && d > 0) || (p < 0 && d < 0)
    ensures Exact(p, d) == 0.0 <==> p == 0
  {
    var x, n := Exact(p, d), d as real;
    assert x * n == p as real;
    assert x > 0.0 && n > 0.0 ==> x * n > 0.0;
    assert x < 0.0 && n > 0.0 ==> x * n < 0.0;
    assert x > 0.0 && n < 0.0 ==> x * n < 0.0;
    assert x < 0.0 && n < 0.0 ==> x * n > 0.0;
  }

  lemma RealQuotient(a: real, b: real, q: real)
    requires b != 0.0 && q * b == a
    ensures a / b == q
  {
  }

  lemma PositiveFraction(r: nat, d: nat)
    requires r < d
    ensures var f := r as real / d as real;
            0.0 <= f < 1.0 && (r == 0 <==> f == 0.0) && (2 * r >= d <==> f >= 0.5)
  {
    var f, n := r as real / d as real, d as real;
    assert f * n == r as real;
    RealDivide(1.0, f, n);
    RealDivide(0.0, f, n);
    RealDivide(f, 0.0, n);
    RealDivide(0.5, f, n);
  }

  /** The fractional part, by the size and sign of the remainder. */
  lemma FractionSize(r: int, d: int)
    requires d != 0 && Abs(r) < Abs(d)
    ensures var f := r as real / d as real;
            && -1.0 < f < 1.0
            && (r == 0 <==> f == 0.0)
            && (f > 0.0 <==> r != 0 && (r > 0) == (d > 0))
            && (2 * Abs(r) >= Abs(d) <==> f >= 0.5 || f <= -0.5)
  {
    var f := Abs(r) as real / Abs(d) as real;
    PositiveFraction(Abs(r), Abs(d));
    assert f * Abs(d) as real == Abs(r) as real;
    RealQuotient(r as real, d as real, if (r >= 0) == (d > 0) then f else -f);
  }

  /** The three roundings, for operands of any sign, and the exact conditions under which they fail. */
  lemma RoundingsAreExact(a: i128, b: i128, d: i128)
    requires d != 0
    ensures var p, exact := a * b, Exact(a * b, d);
            && (MulDiv(a, b, d).Ok? <==> FitsI128(p) && FitsI128(TruncDiv(p, d)))
            && (MulDivUp(a, b, d).Ok? <==> MulDiv(a, b, d).Ok?)
            && (MulDivNearest(a, b, d).Ok? <==>
                  MulDiv(a, b, d).Ok?
                  && (TruncRem(p, d) == 0 || (d != I128_MIN && 2 * Abs(TruncRem(p, d)) <= I128_MAX)))
            && (MulDiv(a, b, d).Ok? ==> IsTruncation(MulDiv(a, b, d).value, exact))
            && (MulDivUp(a, b, d).Ok? ==> IsCeiling(MulDivUp(a, b, d).value, exact))
            && (MulDivNearest(a, b, d).Ok? ==> IsNearest(MulDivNearest(a, b, d).value, exact))
  {
    var p := a * b;
    var q, r := TruncDiv(p, d), TruncRem(p, d);
    TruncDivParts(p, d);
    ExactSplits(p, d, q, r);
    FractionSize(r, d);
    ExactSign(p, d);
    if FitsI128(p) && FitsI128(q) && r != 0 {
      QuotientIsSmall(p, d);
    }
  }

  lemma QuotientSize(p: int, d: int)
    requires d != 0
    ensures Abs(TruncDiv(p, d)) <= Abs(p)
    ensures Abs(d) == 1 ==> Abs(TruncDiv(p, d)) == Abs(p)
    ensures Abs(d) >= 2 ==> 2 * Abs(TruncDiv(p, d)) <= Abs(p)
  {
    var q := Abs(p) / Abs(d);
    DivBounds(Abs(p), Abs(d));
    DivMonotone(0, Abs(p), Abs(d));
    DivUnique(0, Abs(d), 0);
    MulMonotone(1, Abs(d), q);
    if Abs(d) == 1 {
      DivUnique(Abs(p), 1, Abs(p));
    } else {
      MulMonotone(2, Abs(d), q);
    }
  }

  /** A division with a remainder has a divisor of at least two, so its quotient has room for rounding. */
  lemma QuotientIsSmall(p: int, d: int)
    requires d != 0 && FitsI128(p) && TruncRem(p, d) != 0
    ensures I128_MIN < TruncDiv(p, d) < I128_MAX
  {
    TruncDivParts(p, d);
    QuotientSize(p, d);
  }

  /** Truncation is at most the nearest integer exactly when the quotient is not negative or is rounded toward zero;
      both are at most the ceiling. */
  lemma RoundingOrder(a: i128, b: i128, d: i128)
    requires MulDivNearest(a, b, d).Ok?
    ensures MulDiv(a, b, d).Ok? && MulDivUp(a, b, d).Ok?
    ensures MulDiv(a, b, d).value <= MulDivUp(a, b, d).value
    ensures MulDivNearest(a, b, d).value <= MulDivUp(a, b, d).value
    ensures MulDiv(a, b, d).value <= MulDivNearest(a, b, d).value
            <==> Exact(a * b, d) >= 0.0 || 2 * Abs(TruncRem(a * b, d)) < Abs(d)
  {
    RoundingsAreExact(a, b, d);
    TruncDivParts(a * b, d);
    ExactSign(a * b, d);
    if TruncRem(a * b, d) != 0 {
      QuotientIsSmall(a * b, d);
    }
  }

  /** Two thirds below zero: truncation gives 0 and the nearest integer is -1. */
  lemma TruncationAboveNearest()
    ensures MulDiv(-2, 1, 3) == Ok(0) && MulDivNearest(-2, 1, 3) == Ok(-1)
  {
  }

  // ----- scaled operations

  function ToScale(value: i128, scale: i128): Checked {
    if scale == 0 then Err(InvalidScale) else CheckedInt(value * scale)
  }

  function FromScale(value: i128, scale: i128): Checked {
    if scale == 0 then
      Err(InvalidScale)
    else if !Divides(value, scale) then
      Err(Overflow)
    else
      Ok(TruncDiv(value, scale))
  }

  function ScaleMul(a: i128, b: i128, scale: i128): Checked {
    if scale == 0 then Err(InvalidScale) else MulDiv(a, b, scale)
  }

  function ScaleDiv(a: i128, b: i128, scale: i128): Checked {
    if b == 0 then
      Err(DivisionByZero)
    else if scale == 0 then
      Err(InvalidScale)
    else if !FitsI128(a * scale) || !Divides(a * scale, b) then
      Err(Overflow)
    else
      Ok(TruncDiv(a * scale, b))
  }

  lemma ScaleRoundTrip(x: i128, scale: i128)
    requires ToScale(x, scale).Ok?
    ensures FromScale(ToScale(x, scale).value, scale) == Ok(x)
  {
    var n := Abs(scale);
    assert Abs(x * scale) == Abs(x) * n by {
      AbsProduct(x, scale);
    }
    MulDistributes(Abs(x), 1, n);
    DivUnique(Abs(x) * n, n, Abs(x));
    AbsProduct(x, scale);
  }

  lemma AbsProduct(x: int, y: int)
    ensures Abs(x * y) == Abs(x) * Abs(y)
    ensures x * y >= 0 <==> (x >= 0 && y >= 0) || (x <= 0 && y <= 0)
  {
    if x >= 0 && y >= 0 {
      MulMonotone(0, x, y);
    } else if x >= 0 {
      assert x * y == -(x * (-y));
      MulMonotone(0, x, -y);
    } else if y >= 0 {
      assert x * y == -((-x) * y);
      MulMonotone(0, -x, y);
    } else {
      assert x * y == (-x) * (-y);
      MulMonotone(0, -x, -y);
    }
  }

  datatype FixedPoint128 = FixedPoint128(mantissa: i128, scale: i128) {
    function CheckedMul(other: FixedPoint128): Result<FixedPoint128, FixedPointError> {
      if scale != other.scale then
        Err(InvalidScale)
      else
        match ScaleMul(mantissa, other.mantissa, scale)
        case Ok(m) => Ok(FixedPoint128(m, scale))
        case Err(e) => Err(e)
    }

    function CheckedDiv(other: FixedPoint128): Result<FixedPoint128, FixedPointError> {
      if scale != other.scale then
        Err(InvalidScale)
      else
        match ScaleDiv(mantissa, other.mantissa, scale)
        case Ok(m) => Ok(FixedPoint128(m, scale))
        case Err(e) => Err(e)
    }
  }

  /** Multiplying by a positive value and dividing by it again never gains, and loses at most `ceil((s - 1) / b)`. */
  lemma MulThenDivLoss(a: FixedPoint128, b: FixedPoint128)
    requires a.mantissa >= 0 && b.mantissa > 0 && a.scale > 0
    requires a.CheckedMul(b).Ok? && a.CheckedMul(b).value.CheckedDiv(b).Ok?
    ensures var back := a.CheckedMul(b).value.CheckedDiv(b).value.mantissa;
            0 <= a.mantissa - back <= (a.scale - 1 + b.mantissa - 1) / b.mantissa
  {
    var x, y, s := a.mantissa, b.mantissa, a.scale;
    MulMonotone(0, x, y);
    DivMonotone(0, x * y, s);
    DivUnique(0, s, 0);
    MulMonotone(0, x * y / s, s);
    LossBound(x, y, s);
  }

  lemma LossBound(x: nat, y: nat, s: nat)
    requires y > 0 && s > 0
    ensures x * y / s * s / y <= x
    ensures x - x * y / s * s / y <= (s - 1 + y - 1) / y
  {
    var m := x * y / s;
    var back := m * s / y;
    DivBounds(x * y, s);
    MulDistributes(m, 1, s);
    DivBounds(m * s, y);
    MulDistributes(back, 1, y);
    MulDistributes(x, back, y);
    var lost: int := x - back;
    assert 0 - y < lost * y <= s - 1 + y - 1;
    if lost <= -1 {
      MulMonotone(lost, -1, y);
    }
    DivMonotone(lost * y, s - 1 + y - 1, y);
    MulDistributes(lost, 1, y);
    DivUnique(lost * y, y, lost);
  }

  /** The scaled operations fail exactly on a zero divisor or an overflow, and otherwise give the exact product or the
      truncated exact quotient. */
  lemma ScaledOperationsAreExact(a: i128, b: i128, scale: i128)
    ensures ToScale(a, scale).Ok? <==> scale != 0 && FitsI128(a * scale)
    ensures ToScale(a, scale).Ok? ==> ToScale(a, scale).value == a * scale
    ensures FromScale(a, scale).Ok? <==> scale != 0 && !(a == I128_MIN && scale == -1)
    ensures FromScale(a, scale).Ok? ==> IsTruncation(FromScale(a, scale).value, Exact(a, scale))
    ensures ScaleMul(a, b, scale).Ok? ==> scale != 0 && IsTruncation(ScaleMul(a, b, scale).value, Exact(a * b, scale))
    ensures ScaleDiv(a, b, scale).Ok? ==>
              scale != 0 && b != 0 && IsTruncation(ScaleDiv(a, b, scale).value, Exact(a * scale, b))
    ensures scale > 0 && FitsI128(a * b) ==> ScaleMul(a, b, scale).Ok?
    ensures scale != 0 && b > 0 && FitsI128(a * scale) ==> ScaleDiv(a, b, scale).Ok?
  {
    if scale != 0 {
      TruncationOf(a, scale);
      TruncationOf(a * b, scale);
    }
    if b != 0 {
      TruncationOf(a * scale, b);
    }
  }

  /** `TruncDiv` truncates, and leaves `i128` only for `MIN / -1`. */
  lemma TruncationOf(p: int, d: int)
    requires d != 0
    ensures IsTruncation(TruncDiv(p, d), Exact(p, d))
    ensures FitsI128(p) ==> (FitsI128(TruncDiv(p, d)) <==> !(p == I128_MIN && d == -1))
  {
    TruncDivParts(p, d);
    ExactSplits(p, d, TruncDiv(p, d), TruncRem(p, d));
    FractionSize(TruncRem(p, d), d);
    ExactSign(p, d);
    QuotientSize(p, d);
  }

  /** Values of different scales are never combined, and a result has the common scale. */
  lemma ScalesMustAgree(a: FixedPoint128, b: FixedPoint128)
    ensures a.scale != b.scale ==> a.CheckedMul(b) == a.CheckedDiv(b) == Err(InvalidScale)
    ensures a.CheckedMul(b).Ok? ==>
              && a.CheckedMul(b).value.scale == a.scale == b.scale != 0
              && IsTruncation(a.CheckedMul(b).value.mantissa, Exact(a.mantissa * b.mantissa, a.scale))
    ensures a.CheckedDiv(b).Ok? ==>
              && a.CheckedDiv(b).value.scale == a.scale == b.scale && b.mantissa != 0
              && IsTruncation(a.CheckedDiv(b).value.mantissa, Exact(a.mantissa * a.scale, b.mantissa))
  {
    ScaledOperationsAreExact(a.mantissa, b.mantissa, a.scale);
  }

  /** Which error is reported: a zero divisor, a zero scale, and otherwise an overflow. */
  lemma ArithmeticRefusals(a: i128, b: i128, d: i128)
    ensures MulDiv(a, b, d) == Err(DivisionByZero) <==> d == 0
    ensures MulDivUp(a, b, d) == Err(DivisionByZero) <==> d == 0
    ensures MulDivNearest(a, b, d) == Err(DivisionByZero) <==> d == 0
    ensures d != 0 ==>
              forall r :: r in {MulDiv(a, b, d), MulDivUp(a, b, d), MulDivNearest(a, b, d)} ==>
                r.Err? ==> r.error == Overflow
    ensures ToScale(a, d).Err? ==> ToScale(a, d).error == if d == 0 then InvalidScale else Overflow
    ensures FromScale(a, d).Err? ==> FromScale(a, d).error == if d == 0 then InvalidScale else Overflow
    ensures ScaleMul(a, b, d).Err? ==> ScaleMul(a, b, d).error == if d == 0 then InvalidScale else Overflow
    ensures ScaleDiv(a, b, d).Err? ==>
              ScaleDiv(a, b, d).error == if b == 0 then DivisionByZero else if d == 0 then InvalidScale else Overflow
  {
  }

  // ----- fees in basis points

  const BPS_DENOMINATOR: i128 := 10_000

  function ApplyBpsFee(amount: i128, bps: u32): Option<i128> {
    match MulDiv(amount, bps, BPS_DENOMINATOR)
    case Ok(fee) => Some(fee)
    case Err(_) => None
  }

  /** The fee of a non-negative amount is its exact part rounded down, and exists exactly when the product fits. */
  lemma BpsFeeIsExact(amount: nat, bps: u32)
    requires FitsI128(amount)
    ensures ApplyBpsFee(amount, bps).Some? <==> amount * bps <= I128_MAX
    ensures ApplyBpsFee(amount, bps).Some? ==>
              var fee := ApplyBpsFee(amount, bps).value;
              fee * 10_000 <= amount * bps < (fee + 1) * 10_000 && fee == amount * bps / 10_000
  {
    MulMonotone(0, amount, bps);
    DivBounds(amount * bps, 10_000);
    DivMonotone(0, amount * bps, 10_000);
    QuotientSize(amount * bps, 10_000);
  }

  /** Up to 100 % of a non-negative amount is between nothing and the whole amount, and 100 % is all of it. */
  lemma BpsFeeWithinAmount(amount: nat, bps: u32)
    requires FitsI128(amount) && bps <= BPS_DENOMINATOR && ApplyBpsFee(amount, bps).Some?
    ensures 0 <= ApplyBpsFee(amount, bps).value <= amount
    ensures bps == BPS_DENOMINATOR ==> ApplyBpsFee(amount, bps).value == amount
  {
    MulMonotone(0, amount, bps);
    MulMonotone(bps, BPS_DENOMINATOR, amount);
  }

  // ----- the Dutch auction price

  datatype DutchConfig = DutchConfig(startPrice: i128, floorPrice: i128, startLedger: u32, durationLedgers: u32)

  function PriceAt(cfg: DutchConfig, ledger: u32): Checked {
    var elapsed := SatSub32(ledger, cfg.startLedger);
    if elapsed >= cfg.durationLedgers then
      Ok(cfg.floorPrice)
    else
      var spread := cfg.startPrice - cfg.floorPrice;
      if !FitsI128(spread) then
        Err(Overflow)
      else
        match MulDiv(spread, elapsed, cfg.durationLedgers)
        case Err(_) => Err(Overflow)
        case Ok(decay) =>
          var price := cfg.startPrice - decay;
          if !FitsI128(price) then Err(Overflow) else Ok(if price >= cfg.floorPrice then price else cfg.floorPrice)
  }

  /** What `start_dutch` accepts. */
  predicate Accepted(cfg: DutchConfig) {
    0 <= cfg.floorPrice < cfg.startPrice && cfg.durationLedgers > 0
  }

  /** The quotient that decides the price before the end of the schedule. */
  lemma PriceFormula(cfg: DutchConfig, ledger: u32)
    requires Accepted(cfg) && SatSub32(ledger, cfg.startLedger) < cfg.durationLedgers
    ensures var spread, elapsed := cfg.startPrice - cfg.floorPrice, SatSub32(ledger, cfg.startLedger);
            var decay := spread * elapsed / cfg.durationLedgers;
            && 0 <= decay <= spread
            && PriceAt(cfg, ledger)
               == if spread * elapsed <= I128_MAX then Ok(cfg.startPrice - decay) else Err(Overflow)
  {
    var spread, elapsed := cfg.startPrice - cfg.floorPrice, SatSub32(ledger, cfg.startLedger);
    MulMonotone(0, spread, elapsed);
    MulMonotone(elapsed, cfg.durationLedgers, spread);
    DivMonotone(0, spread * elapsed, cfg.durationLedgers);
    DivUnique(0, cfg.durationLedgers, 0);
    DivMonotone(spread * elapsed, spread * cfg.durationLedgers, cfg.durationLedgers);
    MulDistributes(spread, 1, cfg.durationLedgers);
    DivUnique(spread * cfg.durationLedgers, cfg.durationLedgers, spread);
  }

  /** For an accepted schedule the price exists at every ledger exactly when the spread over all but the last ledger of
      the schedule fits `i128`. */
  lemma PriceExistsExactly(cfg: DutchConfig)
    requires Accepted(cfg) && cfg.startLedger + cfg.durationLedgers <= U32_MAX
    ensures (forall ledger: u32 :: PriceAt(cfg, ledger).Ok?)
            <==> (cfg.startPrice - cfg.floorPrice) * (cfg.durationLedgers - 1) <= I128_MAX
  {
    var spread, last: u32 := cfg.startPrice - cfg.floorPrice, cfg.durationLedgers - 1;
    forall ledger: u32
      ensures spread * last <= I128_MAX ==> PriceAt(cfg, ledger).Ok?
    {
      if SatSub32(ledger, cfg.startLedger) < cfg.durationLedgers {
        PriceFormula(cfg, ledger);
        MulMonotone(SatSub32(ledger, cfg.startLedger), last, spread);
      }
    }
    PriceFormula(cfg, cfg.startLedger + last);
  }

  /** The documentation's claim that no accepted schedule overflows is too strong. */
  lemma AcceptedScheduleCanOverflow()
    ensures exists cfg, ledger :: Accepted(cfg) && PriceAt(cfg, ledger) == Err(Overflow)
  {
    var cfg := DutchConfig(I128_MAX, 0, 0, 3);
    PriceFormula(cfg, 2);
    assert Accepted(cfg) && PriceAt(cfg, 2) == Err(Overflow);
  }

  /** Whatever the configuration, even one that `start_dutch` refuses, the price never falls below the floor, and
      only an overflow leaves it undefined. */
  lemma PriceNeverBelowFloor(cfg: DutchConfig, ledger: u32)
    ensures match PriceAt(cfg, ledger)
            case Ok(price) => price >= cfg.floorPrice
            case Err(error) => error == Overflow
  {
  }

  /** The price never rises, stays between the floor and the start price, and is less than one unit above the exact
      line, never below it. */
  lemma PriceFalls(cfg: DutchConfig, ledger: u32, later: u32)
    requires Accepted(cfg) && ledger <= later
    requires PriceAt(cfg, ledger).Ok? && PriceAt(cfg, later).Ok?
    ensures cfg.floorPrice <= PriceAt(cfg, later).value <= PriceAt(cfg, ledger).value <= cfg.startPrice
    ensures ledger <= cfg.startLedger ==> PriceAt(cfg, ledger).value == cfg.startPrice
    ensures SatSub32(ledger, cfg.startLedger) <= cfg.durationLedgers ==>
              var spread, elapsed := cfg.startPrice - cfg.floorPrice, SatSub32(ledger, cfg.startLedger);
              var above := PriceAt(cfg, ledger).value * cfg.durationLedgers
                           - (cfg.startPrice * cfg.durationLedgers - spread * elapsed);
              0 <= above < cfg.durationLedgers
  {
    var spread, n := cfg.startPrice - cfg.floorPrice, cfg.durationLedgers;
    var e, e' := SatSub32(ledger, cfg.startLedger), SatSub32(later, cfg.startLedger);
    if e < n {
      PriceFormula(cfg, ledger);
      DivBounds(spread * e, n);
      var decay := spread * e / n;
      MulDistributes(decay, 1, n);
      MulDistributes(cfg.startPrice, decay, n);
      if e == 0 {
        DivUnique(0, n, 0);
      }
    } else {
      MulDistributes(cfg.startPrice, cfg.floorPrice, n);
    }
    if e' < n {
      PriceFormula(cfg, later);
      MulMonotone(e, e', spread);
      DivMonotone(spread * e, spread * e', n);
    }
  }
}
