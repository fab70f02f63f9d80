/** The kinked interest-rate curve and index accrual (internal/liquidation/ratecomputer/model.go, pure part). */
module RateModel {
  import opened WadRay
  import opened RayRounding
  import opened Interest

  datatype InterestRateModelParams = InterestRateModelParams(
    baseRate: int, slope1: int, slope2: int, optimalUtilization: int)
  {
    /** Parameters of an actual curve: the kink lies in [0, 100%] and the curve starts and slopes upward. */
    predicate Valid() {
      0 <= baseRate && 0 <= slope1 && 0 <= slope2 && 0 <= optimalUtilization <= RAY
    }
  }

  /** totalBorrow / (totalSupply + totalBorrow), zero for an empty pool. */
  function CalculateUtilizationRate(totalSupply: int, totalBorrow: int): int {
    var total := totalSupply + totalBorrow;
    if total == 0 then 0 else RayDiv(WadToRay(totalBorrow), WadToRay(total))
  }

  function CalculateBorrowRate(utilization: int, params: InterestRateModelParams): int {
    if utilization <= params.optimalUtilization then
      if params.optimalUtilization == 0 then params.baseRate
      else params.baseRate + RayMul(RayDiv(utilization, params.optimalUtilization), params.slope1)
    else
      var excessUtil := utilization - params.optimalUtilization;
      var remaining := if RAY - params.optimalUtilization == 0 then RAY else RAY - params.optimalUtilization;
      params.baseRate + params.slope1 + RayMul(RayDiv(excessUtil, remaining), params.slope2)
  }

  /** The reserve factor is taken as zero. */
  function CalculateSupplyRate(borrowRate: int, utilization: int): int {
    RayMul(borrowRate, utilization)
  }

  /** Linear accrual of an index from lastTimestamp to now; a clock that has not advanced accrues nothing. */
  function ExtrapolateIndex(lastIndex: int, rate: int, lastTimestamp: int, now: int): int {
    var timeDelta := now - lastTimestamp;
    if timeDelta <= 0 then lastIndex
    else RayMul(lastIndex, CalculateLinearInterest(rate, timeDelta))
  }

  // ---------- Utilization ----------

  /** Utilization is the nearest RAY fraction to borrow / (supply + borrow), and at most 100%. */
  lemma UtilizationIsNearestShare(supply: nat, borrow: nat)
    ensures var u := CalculateUtilizationRate(supply, borrow);
            && 0 <= u <= RAY
            && -(supply + borrow) <= 2 * (u * (supply + borrow) - borrow * RAY) <= supply + borrow
  {
    var total := supply + borrow;
    if total > 0 {
      RayDivIsNearest(WadToRay(borrow), WadToRay(total), CalculateUtilizationRate(supply, borrow));
      CancelRatio(CalculateUtilizationRate(supply, borrow), total, borrow);
      RayDivMono(WadToRay(borrow), WadToRay(total), WadToRay(total), WadToRay(total));
      RayIsUnit(WadToRay(total));
    }
  }

  /** Its ends and its middle: nothing for an empty pool or without borrowing, 100% when everything is borrowed, and 50%
      when as much is borrowed as is supplied. */
  lemma UtilizationEnds(supply: nat, borrow: nat)
    ensures borrow == 0 ==> CalculateUtilizationRate(supply, borrow) == 0
    ensures supply == 0 < borrow ==> CalculateUtilizationRate(supply, borrow) == RAY
    ensures supply == borrow > 0 ==> CalculateUtilizationRate(supply, borrow) == RAY / 2
  {
    var total := WadToRay(supply + borrow);
    if total > 0 {
      RayDivIsNearest(WadToRay(borrow), total, 0);
      RayIsUnit(total);
      if supply == borrow {
        assert WadToRay(borrow) * RAY == RAY / 2 * total;
        RayDivIsNearest(WadToRay(borrow), total, RAY / 2);
      }
    }
  }

  lemma CancelRatio(u: int, total: int, borrow: int)
    requires 2 * (WadToRay(borrow) * RAY) - WadToRay(total) < 2 * (u * WadToRay(total))
                                                            <= 2 * (WadToRay(borrow) * RAY) + WadToRay(total)
    ensures -total <= 2 * (u * total - borrow * RAY) <= total
  {
    assert u * WadToRay(total) == u * total * WAD_RAY_RATIO;
    assert WadToRay(borrow) * RAY == borrow * RAY * WAD_RAY_RATIO;
  }

  /** More borrowing, or less supply, never lowers utilization, rounding included. */
  lemma UtilizationMono(s1: nat, b1: nat, s2: nat, b2: nat)
    requires s2 <= s1 && b1 <= b2
    ensures CalculateUtilizationRate(s1, b1) <= CalculateUtilizationRate(s2, b2)
  {
    if s1 + b1 == 0 || b1 == 0 {
      UtilizationIsNearestShare(s2, b2);
      if s1 > 0 { RoundedDivIsNearest(0, WadToRay(s1), 0); }
    } else {
      assert b1 * (s2 + b2) <= b2 * (s1 + b1) by {
        ProductMono(b1, s2, b2, s1);
      }
      ShareMono(b1, s1 + b1, b2, s2 + b2);
    }
  }

  lemma ShareMono(b1: nat, t1: nat, b2: nat, t2: nat)
    requires 0 < t1 && 0 < t2 && b1 * t2 <= b2 * t1
    ensures RayDiv(WadToRay(b1), WadToRay(t1)) <= RayDiv(WadToRay(b2), WadToRay(t2))
  {
    var k := WAD_RAY_RATIO * RAY * WAD_RAY_RATIO;
    MulMono(b1 * t2, b2 * t1, k);
    assert WadToRay(b1) * RAY * WadToRay(t2) == b1 * t2 * k;
    assert WadToRay(b2) * RAY * WadToRay(t1) == b2 * t1 * k;
    RoundedDivMono(WadToRay(b1) * RAY, WadToRay(t1), WadToRay(b2) * RAY, WadToRay(t2));
  }

  // ---------- The curve ----------

  /** The share of a segment's slope that is charged at ratio part/whole. */
  lemma SegmentMono(part1: nat, part2: nat, whole: int, slope: nat)
    requires 0 < whole && part1 <= part2
    ensures 0 <= RayMul(RayDiv(part1, whole), slope) <= RayMul(RayDiv(part2, whole), slope)
  {
    RayDivMono(part1, whole, part2, whole);
    RayMulMono(RayDiv(part1, whole), slope, RayDiv(part2, whole), slope);
  }

  lemma SegmentFull(whole: int, slope: nat)
    requires 0 < whole
    ensures RayMul(RayDiv(whole, whole), slope) == slope
  {
    RayIsUnit(whole);
    RayIsUnit(slope);
  }

  /** Utilization never lowers the borrow rate, across the kink as well as on either side. */
  lemma BorrowRateMono(u1: nat, u2: nat, p: InterestRateModelParams)
    requires p.Valid() && u1 <= u2
    ensures CalculateBorrowRate(u1, p) <= CalculateBorrowRate(u2, p)
  {
    var opt := p.optimalUtilization;
    var remaining := if RAY - opt == 0 then RAY else RAY - opt;
    if u2 <= opt {
      if opt > 0 { SegmentMono(u1, u2, opt, p.slope1); }
    } else if u1 <= opt {
      SegmentMono(0, u2 - opt, remaining, p.slope2);
      if opt > 0 {
        SegmentMono(u1, opt, opt, p.slope1);
        SegmentFull(opt, p.slope1);
      }
    } else {
      SegmentMono(u1 - opt, u2 - opt, remaining, p.slope2);
    }
  }

  /** The end points: base + slope1 at a positive optimum, base + slope1 + slope2 at 100% beyond it;
      every rate on the curve lies between the base rate and the latter. */
  lemma BorrowRateRange(u: nat, p: InterestRateModelParams)
    requires p.Valid() && u <= RAY
    ensures p.baseRate <= CalculateBorrowRate(u, p) <= p.baseRate + p.slope1 + p.slope2
    ensures u == p.optimalUtilization > 0 ==> CalculateBorrowRate(u, p) == p.baseRate + p.slope1
    ensures u == RAY > p.optimalUtilization ==> CalculateBorrowRate(u, p) == p.baseRate + p.slope1 + p.slope2
  {
    var opt := p.optimalUtilization;
    if u <= opt {
      if opt > 0 {
        SegmentMono(u, opt, opt, p.slope1);
        SegmentFull(opt, p.slope1);
      }
    } else {
      SegmentMono(u - opt, RAY - opt, RAY - opt, p.slope2);
      SegmentFull(RAY - opt, p.slope2);
    }
  }

  /** Each segment is a straight line, up to the two roundings; the upper one goes on beyond 100%. */
  lemma BorrowRateOnTheLine(u: nat, p: InterestRateModelParams)
    requires p.Valid()
    ensures var opt := p.optimalUtilization;
            var rate := CalculateBorrowRate(u, p);
            && (0 < opt && u <= opt ==>
                  var bound := opt * (p.slope1 + RAY);
                  -bound <= 2 * RAY * ((rate - p.baseRate) * opt - u * p.slope1) <= bound)
            && (opt < u ==>
                  var w, excess := if opt == RAY then RAY else RAY - opt, rate - p.baseRate - p.slope1;
                  -(w * (p.slope2 + RAY)) <= 2 * RAY * (excess * w - (u - opt) * p.slope2) <= w * (p.slope2 + RAY))
  {
    var opt := p.optimalUtilization;
    if 0 < opt && u <= opt {
      RayMulByQuotientError(p.slope1, u, opt);
      RayMulCommutes(p.slope1, RayDiv(u, opt));
    }
    if opt < u {
      var w := if opt == RAY then RAY else RAY - opt;
      RayMulByQuotientError(p.slope2, u - opt, w);
      RayMulCommutes(p.slope2, RayDiv(u - opt, w));
    }
  }

  lemma RayMulCommutes(a: int, b: int)
    ensures RayMul(a, b) == RayMul(b, a)
  {
    assert a * b == b * a;
  }

  /** More borrowing never lowers the borrow rate and more supply never raises it, through both roundings. */
  lemma BorrowRateFollowsDemand(s1: nat, b1: nat, s2: nat, b2: nat, p: InterestRateModelParams)
    requires p.Valid() && s2 <= s1 && b1 <= b2
    ensures CalculateBorrowRate(CalculateUtilizationRate(s1, b1), p)
         <= CalculateBorrowRate(CalculateUtilizationRate(s2, b2), p)
  {
    UtilizationIsNearestShare(s1, b1);
    UtilizationMono(s1, b1, s2, b2);
    BorrowRateMono(CalculateUtilizationRate(s1, b1), CalculateUtilizationRate(s2, b2), p);
  }

  /** Suppliers earn the utilized share of what borrowers pay, to the nearest unit. */
  lemma SupplyRateIsNearest(borrowRate: int, utilization: int, q: int)
    ensures q == CalculateSupplyRate(borrowRate, utilization)
            <==> 2 * (borrowRate * utilization) - RAY < 2 * (q * RAY) <= 2 * (borrowRate * utilization) + RAY
  {
    RayMulIsNearest(borrowRate, utilization, q);
  }

  /** Suppliers never earn more than borrowers pay. */
  lemma SupplyRateAtMostBorrowRate(borrowRate: nat, utilization: nat)
    requires utilization <= RAY
    ensures 0 <= CalculateSupplyRate(borrowRate, utilization) <= borrowRate
  {
    RayMulMono(borrowRate, utilization, borrowRate, RAY);
    RayIsUnit(borrowRate);
  }

  // ---------- Accrual ----------

  /** Indices grow with the starting index, the rate and the clock. */
  lemma ExtrapolateIndexMono(i1: nat, i2: nat, rate1: nat, rate2: nat, last: int, now1: int, now2: int)
    requires i1 <= i2 && rate1 <= rate2 && now1 <= now2
    ensures i1 <= ExtrapolateIndex(i1, rate1, last, now1) <= ExtrapolateIndex(i2, rate2, last, now2)
  {
    RayIsUnit(i1);
    if now1 > last {
      LinearInterestMono(0, rate1, 0, now1 - last);
      RayMulMono(i1, RAY, i1, CalculateLinearInterest(rate1, now1 - last));
    }
    if now2 > last {
      var from := if now1 > last then now1 - last else 0;
      LinearInterestMono(rate1, rate2, from, now2 - last);
      RayMulMono(i1, CalculateLinearInterest(rate1, from), i2, CalculateLinearInterest(rate2, now2 - last));
    }
  }

  lemma SplitBounds(h: int, d: int, i: int, m2: int, ray: int, gain: int)
    requires 0 < ray && 0 <= gain
    requires 2 * gain - ray * m2 <= ray * h <= 2 * gain + ray * m2
    requires h - 2 * i - 2 * ray <= d <= h + 2 * ray
    ensures -(2 * i + m2 + 2 * ray) <= d
    ensures ray * d <= 2 * gain + ray * (m2 + 2 * ray)
  {
    if h < -m2 { MulStrict(h, -m2, ray); }
    MulMono(d, h + 2 * ray, ray);
  }

  /** i * m1 * m2, against RAY times the sum of the two accruals. */
  lemma Gain(i: nat, m1: int, m2: int, ray: int)
    requires ray <= m1 && ray <= m2
    ensures 0 <= i * ((m1 - ray) * (m2 - ray)) == i * m1 * m2 - ray * (i * (m1 + m2 - ray))
  {
    ProductMono(0, 0, m1 - ray, m2 - ray);
    ProductMono(0, 0, i, (m1 - ray) * (m2 - ray));
    assert (m1 - ray) * (m2 - ray) == m1 * m2 - ray * (m1 + m2 - ray);
    assert i * (m1 * m2) == i * m1 * m2;
  }

  lemma TwoStepBounds(i: nat, m1: int, m2: int, i1: int, ray: int)
    requires 0 < ray <= m1 && ray <= m2
    requires -ray <= 2 * (i1 * ray - i * m1) <= ray
    ensures var gain := i * ((m1 - ray) * (m2 - ray));
            var h := 2 * (i1 * m2) - 2 * (i * (m1 + m2 - ray));
            0 <= gain && 2 * gain - ray * m2 <= ray * h <= 2 * gain + ray * m2
  {
    Gain(i, m1, m2, ray);
    ScaledError(2 * (i1 * ray - i * m1), ray, m2);
    Rearranged(i1, i * m1, m2, i * (m1 + m2 - ray), ray);
  }

  lemma Rearranged(i1: int, im1: int, m2: int, base: int, ray: int)
    ensures ray * (2 * (i1 * m2) - 2 * base) == 2 * (i1 * ray - im1) * m2 + 2 * (im1 * m2 - ray * base)
  {
  }

  lemma OneStepBounds(i: nat, m: int, m12: int)
    requires m <= m12 <= m + 1
    ensures i * m <= i * m12 <= i * m + i
  {
    MulMono(m, m12, i);
    MulMono(m12, m + 1, i);
  }

  lemma DifferenceBounds(z: int, base: int, im12: int, i: int, i2: int, j: int, ray: int)
    requires base <= im12 <= base + i
    requires -ray <= 2 * (i2 * ray - z) <= ray
    requires -ray <= 2 * (j * ray - im12) <= ray
    ensures 2 * z - 2 * base - 2 * i - 2 * ray <= 2 * ray * (i2 - j) <= 2 * z - 2 * base + 2 * ray
  {
    assert 2 * ray * (i2 - j) == 2 * (i2 * ray) - 2 * (j * ray);
  }

  /** The two-step and one-step products, cleared of fractions, once m1 + m2 and m12 are a unit apart. */
  lemma SplitProduct(i: nat, m1: int, m2: int, m12: int, i1: int, i2: int, j: int, ray: int)
    requires 0 < ray <= m1 && ray <= m2
    requires m1 + m2 - ray <= m12 <= m1 + m2 - ray + 1
    requires -ray <= 2 * (i1 * ray - i * m1) <= ray
    requires -ray <= 2 * (i2 * ray - i1 * m2) <= ray
    requires -ray <= 2 * (j * ray - i * m12) <= ray
    ensures -(2 * i + m2 + 2 * ray) <= 2 * ray * (i2 - j)
    ensures ray * (2 * ray * (i2 - j)) <= 2 * (i * ((m1 - ray) * (m2 - ray))) + ray * (m2 + 2 * ray)
  {
    var gain, base := i * ((m1 - ray) * (m2 - ray)), i * (m1 + m2 - ray);
    var h, d := 2 * (i1 * m2) - 2 * base, 2 * ray * (i2 - j);
    TwoStepBounds(i, m1, m2, i1, ray);
    OneStepBounds(i, m1 + m2 - ray, m12);
    DifferenceBounds(i1 * m2, base, i * m12, i, i2, j, ray);
    SplitBounds(h, d, i, m2, ray, gain);
  }

  lemma AccrualIsProduct(i: int, rate: int, last: int, t: nat)
    ensures ExtrapolateIndex(i, rate, last, last + t) == RayMul(i, CalculateLinearInterest(rate, t))
  {
    RayIsUnit(i);
  }

  lemma SplitMultipliers(i: nat, rate: nat, t1: nat, t2: nat)
    ensures var m1, m2 := CalculateLinearInterest(rate, t1), CalculateLinearInterest(rate, t2);
            var twice := RayMul(RayMul(i, m1), m2);
            var once := RayMul(i, CalculateLinearInterest(rate, t1 + t2));
            && -(2 * i + m2 + 2 * RAY) <= 2 * RAY * (twice - once)
            && RAY * (2 * RAY * (twice - once)) <= 2 * (i * ((m1 - RAY) * (m2 - RAY))) + RAY * (m2 + 2 * RAY)
  {
    var m1, m2, m12 := CalculateLinearInterest(rate, t1), CalculateLinearInterest(rate, t2),
                       CalculateLinearInterest(rate, t1 + t2);
    var mid := RayMul(i, m1);
    var twice, once := RayMul(mid, m2), RayMul(i, m12);
    assert RAY <= m1 && RAY <= m2 by {
      LinearInterestMono(rate, rate, t1, t1);
      LinearInterestMono(rate, rate, t2, t2);
    }
    assert m1 + m2 - RAY <= m12 <= m1 + m2 - RAY + 1 by { LinearInterestSplit(rate, t1, t2); }
    assert -RAY <= 2 * (mid * RAY - i * m1) <= RAY by { RayMulIsNearest(i, m1, mid); }
    assert -RAY <= 2 * (twice * RAY - mid * m2) <= RAY by { RayMulIsNearest(mid, m2, twice); }
    assert -RAY <= 2 * (once * RAY - i * m12) <= RAY by { RayMulIsNearest(i, m12, once); }
    SplitProduct(i, m1, m2, m12, mid, twice, once, RAY);
  }

  /** Accruing over t1 and then t2, against accruing once over t1 + t2. The split loses at most
      I/RAY + m2/(2*RAY) + 1 units, and gains no more than the interest earned on interest and m2/(2*RAY) + 1 units. */
  lemma SplitAccrual(i: nat, rate: nat, last: int, t1: nat, t2: nat)
    ensures var m1, m2 := CalculateLinearInterest(rate, t1), CalculateLinearInterest(rate, t2);
            var mid := ExtrapolateIndex(i, rate, last, last + t1);
            var twice := ExtrapolateIndex(mid, rate, last + t1, last + t1 + t2);
            var once := ExtrapolateIndex(i, rate, last, last + t1 + t2);
            && -(2 * i + m2 + 2 * RAY) <= 2 * RAY * (twice - once)
            && RAY * (2 * RAY * (twice - once)) <= 2 * (i * ((m1 - RAY) * (m2 - RAY))) + RAY * (m2 + 2 * RAY)
  {
    AccrualIsProduct(i, rate, last, t1);
    AccrualIsProduct(i, rate, last, t1 + t2);
    var mid := ExtrapolateIndex(i, rate, last, last + t1);
    AccrualIsProduct(mid, rate, last + t1, t2);
    SplitMultipliers(i, rate, t1, t2);
  }

  /** A year at a yearly rate multiplies the index by exactly RAY + rate. */
  lemma ExtrapolateOneYear(index: int, rate: int, last: int)
    ensures ExtrapolateIndex(index, rate, last, last + SECONDS_PER_YEAR) == RayMul(index, RAY + rate)
  {
    LinearInterestOverYears(rate, 1);
  }
}
