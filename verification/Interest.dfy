/** Linear and compounded interest multipliers (internal/common/math/wadray.go). */
module Interest {
  import opened WadRay
  import opened RayRounding

  /** Used by the Aave-style formulas: 365 days. */
  const SECONDS_PER_YEAR: int := 31_536_000

  function CalculateLinearInterest(rate: int, timeDelta: nat): int {
    if timeDelta == 0 then RAY else rate * timeDelta / SECONDS_PER_YEAR + RAY
  }

  /** Three binomial terms, each one truncated. */
  function CalculateCompoundedInterest(rate: int, timeDelta: nat): int {
    if timeDelta == 0 then RAY else
    var term1 := rate * timeDelta / SECONDS_PER_YEAR;
    var rateSq := RayMul(rate, rate);
    var term2 := rateSq * timeDelta * (timeDelta - 1) / (SECONDS_PER_YEAR * SECONDS_PER_YEAR) / 2;
    var rateCubed := RayMul(rateSq, rate);
    var term3 := rateCubed * timeDelta * (timeDelta - 1) * (timeDelta - 2)
                 / (SECONDS_PER_YEAR * SECONDS_PER_YEAR * SECONDS_PER_YEAR) / 6;
    RAY + term1 + term2 + term3
  }

  // ---------- Linear interest ----------

  /** The accrued part is the time-proportional share of the yearly rate, rounded down. */
  lemma LinearInterestIsProRata(rate: int, t: nat)
    ensures var accrued := CalculateLinearInterest(rate, t) - RAY;
            accrued * SECONDS_PER_YEAR <= rate * t < (accrued + 1) * SECONDS_PER_YEAR
  {
    DivBounds(rate * t, SECONDS_PER_YEAR);
  }

  /** A full year at `rate` multiplies by exactly RAY + rate; k years by RAY + k * rate. */
  lemma LinearInterestOverYears(rate: int, k: nat)
    ensures CalculateLinearInterest(rate, k * SECONDS_PER_YEAR) == RAY + rate * k
  {
    var t := k * SECONDS_PER_YEAR;
    LinearInterestIsProRata(rate, t);
    var accrued := CalculateLinearInterest(rate, t) - RAY;
    assert rate * t == (rate * k) * SECONDS_PER_YEAR;
    if accrued < rate * k {
      MulMono(accrued + 1, rate * k, SECONDS_PER_YEAR);
    } else if rate * k < accrued {
      MulMono(rate * k + 1, accrued, SECONDS_PER_YEAR);
    }
  }

  lemma LinearInterestMono(rate1: int, rate2: int, t1: nat, t2: nat)
    requires 0 <= rate1 <= rate2 && t1 <= t2
    ensures RAY <= CalculateLinearInterest(rate1, t1) <= CalculateLinearInterest(rate2, t2)
  {
    ProductMono(rate1, t1, rate2, t2);
    DivMono(rate1 * t1, rate2 * t2, SECONDS_PER_YEAR);
    DivMono(0, rate1 * t1, SECONDS_PER_YEAR);
  }

  /** Splitting an interval loses at most one unit of the multiplier, and gains none. */
  lemma LinearInterestSplit(rate: int, t1: nat, t2: nat)
    ensures var whole := CalculateLinearInterest(rate, t1 + t2) - RAY;
            var parts := CalculateLinearInterest(rate, t1) - RAY + (CalculateLinearInterest(rate, t2) - RAY);
            parts <= whole <= parts + 1
  {
    LinearInterestIsProRata(rate, t1);
    LinearInterestIsProRata(rate, t2);
    LinearInterestIsProRata(rate, t1 + t2);
    assert rate * (t1 + t2) == rate * t1 + rate * t2;
  }

  // ---------- Compounded interest: order ----------

  lemma FallingFactorialMono(t1: nat, t2: nat)
    requires 1 <= t1 <= t2
    ensures 0 <= t1 * (t1 - 1) <= t2 * (t2 - 1)
    ensures 0 <= t1 * (t1 - 1) * (t1 - 2) <= t2 * (t2 - 1) * (t2 - 2)
  {
    ProductMono(t1, t1 - 1, t2, t2 - 1);
    if t1 >= 2 {
      ProductMono(t1 * (t1 - 1), t1 - 2, t2 * (t2 - 1), t2 - 2);
    } else {
      assert t1 * (t1 - 1) * (t1 - 2) == 0;
      if t2 >= 2 {
        ProductMono(0, 0, t2 * (t2 - 1), t2 - 2);
      }
    }
  }

  lemma CompoundedTermMono(coefficient: int, f1: int, f2: int, d: int, k: int)
    requires 0 <= coefficient && 0 <= f1 <= f2 && 0 < d && 0 < k
    ensures 0 <= coefficient * f1 / d / k <= coefficient * f2 / d / k
  {
    ProductMono(coefficient, f1, coefficient, f2);
    DivMono(0, coefficient * f1, d);
    DivMono(coefficient * f1, coefficient * f2, d);
    DivMono(0, coefficient * f1 / d, k);
    DivMono(coefficient * f1 / d, coefficient * f2 / d, k);
  }

  /** For a non-negative rate, compounding never yields less than linear interest and never shrinks with time. */
  lemma CompoundedInterestOrder(rate: int, t1: nat, t2: nat)
    requires 0 <= rate && t1 <= t2
    ensures CalculateLinearInterest(rate, t1) <= CalculateCompoundedInterest(rate, t1)
    ensures CalculateCompoundedInterest(rate, t1) <= CalculateCompoundedInterest(rate, t2)
  {
    var sq := RayMul(rate, rate);
    RayMulMono(rate, rate, rate, rate);
    var cube := RayMul(sq, rate);
    RayMulMono(sq, rate, sq, rate);
    LinearInterestMono(rate, rate, t1, t2);
    if t2 > 0 {
      var s1 := if t1 == 0 then 1 else t1;
      FallingFactorialMono(s1, t2);
      CompoundedTermMono(sq, s1 * (s1 - 1), t2 * (t2 - 1), SECONDS_PER_YEAR * SECONDS_PER_YEAR, 2);
      CompoundedTermMono(cube, s1 * (s1 - 1) * (s1 - 2), t2 * (t2 - 1) * (t2 - 2),
                         SECONDS_PER_YEAR * SECONDS_PER_YEAR * SECONDS_PER_YEAR, 6);
      AssociateTerms(sq, s1);
      AssociateTerms(sq, t2);
      AssociateTerms(cube, s1);
      AssociateTerms(cube, t2);
    }
  }

  lemma AssociateTerms(c: int, t: nat)
    ensures c * t * (t - 1) == c * (t * (t - 1))
    ensures c * t * (t - 1) * (t - 2) == c * (t * (t - 1) * (t - 2))
  {
  }
}
