/** How far a reported health factor can be from the exact one: through the accrued balances, the truncated values,
    the rounded weights, both sums and the final division (internal/liquidation/scanner/scanner.go,
    CalculateHealthFactor). */
module HealthFactorErrors {
  import opened Options
  import opened WadRay
  import opened RayRounding
  import opened RateComputers
  import opened HealthFactors

  /** An exact fraction num/den, and by how much, in units of 1/(2 * RAY * den), a computed value may fall short of
      it or exceed it. */
  datatype Bound = Bound(num: int, below: int, above: int, den: int)

  ghost predicate Covers(b: Bound, x: int) {
    b.den > 0 && -b.below <= 2 * RAY * (x * b.den - b.num) <= b.above
  }

  const NOTHING: Bound := Bound(0, 0, 0, 1)

  /** The sum of two fractions, errors included. */
  function Plus(a: Bound, b: Bound): Bound {
    Bound(a.num * b.den + b.num * a.den, a.below * b.den + b.below * a.den, a.above * b.den + b.above * a.den,
          a.den * b.den)
  }

  lemma SumOfErrors(e1: int, lo1: int, hi1: int, d1: int, e2: int, lo2: int, hi2: int, d2: int)
    requires -lo1 <= e1 <= hi1 && -lo2 <= e2 <= hi2 && 0 < d1 && 0 < d2
    ensures -(lo1 * d2 + lo2 * d1) <= e1 * d2 + e2 * d1 <= hi1 * d2 + hi2 * d1
  {
    MulMono(-lo1, e1, d2);
    MulMono(e1, hi1, d2);
    MulMono(-lo2, e2, d1);
    MulMono(e2, hi2, d1);
  }

  lemma SumOfFractions(x: int, n1: int, d1: int, y: int, n2: int, d2: int)
    ensures (x + y) * (d1 * d2) - (n1 * d2 + n2 * d1) == (x * d1 - n1) * d2 + (y * d2 - n2) * d1
  {
  }

  lemma ScaleOut(k: int, a: int, p: int, b: int, q: int)
    ensures k * (a * p + b * q) == k * a * p + k * b * q
  {
  }

  lemma PlusCovers(a: Bound, x: int, b: Bound, y: int)
    requires Covers(a, x) && Covers(b, y)
    ensures Covers(Plus(a, b), x + y)
  {
    MulStrict(0, a.den, b.den);
    SumOfErrors(2 * RAY * (x * a.den - a.num), a.below, a.above, a.den,
                2 * RAY * (y * b.den - b.num), b.below, b.above, b.den);
    SumOfFractions(x, a.num, a.den, y, b.num, b.den);
    ScaleOut(2 * RAY, x * a.den - a.num, b.den, y * b.den - b.num, a.den);
  }

  // ---------- One entry ----------

  /** The index at entry; one where nothing accrues. */
  function Entered(userIndex: Option<int>): (u: int)
    ensures 0 < u
  {
    if userIndex.Some? && userIndex.value > 0 then userIndex.value else 1
  }

  /** The current index; one where nothing accrues. */
  function Now(userIndex: Option<int>, current: int): int {
    if userIndex.Some? && userIndex.value > 0 then current else 1
  }

  lemma BalanceError(b: nat, userIndex: Option<int>, current: int)
    ensures var z, u := AccruedBalance(b, userIndex, current), Entered(userIndex);
            -(u * (b + WAD + RAY)) <= 2 * RAY * (z * u - b * Now(userIndex, current)) <= u * (b + WAD + RAY)
  {
    if userIndex.Some? && userIndex.value > 0 {
      AccruedBalanceError(b, userIndex.value, current);
    }
  }

  /** balance * current/entered * price * threshold / 10^decimals, in units of 10^9/RAY. */
  function CollateralBound(c: CollateralEntry, indices: Indices): Bound {
    var current := if c.marketID in indices.liquidity then indices.liquidity[c.marketID] else RAY;
    var u, n := Entered(c.supplyIndex), Now(c.supplyIndex, current);
    var unit, w := PowerOfTen(c.decimals), WAD_RAY_RATIO * c.priceUSD * c.liquidationThreshold;
    var accrual := w * (u * (c.supplyBalance + WAD + RAY));
    Bound(w * (c.supplyBalance * n), RAY * (u * (unit * (2 * WadToRay(c.liquidationThreshold) + RAY))) + accrual,
          RAY * (u * (unit * RAY)) + accrual, RAY * (u * unit))
  }

  /** balance * current/entered * price / 10^decimals, in units of 10^9. */
  function DebtBound(d: DebtEntry, indices: Indices): Bound {
    var current := if d.marketID in indices.borrow then indices.borrow[d.marketID] else RAY;
    var u, n := Entered(d.borrowIndex), Now(d.borrowIndex, current);
    var unit, w := PowerOfTen(d.decimals), WadToRay(d.priceUSD);
    var accrual := w * (u * (d.borrowBalance + WAD + RAY));
    Bound(w * (d.borrowBalance * n), 2 * RAY * (u * WadToRay(unit)) + accrual, accrual, u * unit)
  }

  /** x is near w*z, z*u is near e; so x*u is near w*e. */
  lemma TwoErrors(x: int, w: nat, z: int, u: int, e: int, lo: int, hi: int, slack: int, k: int)
    requires 0 < u && 0 < k
    requires 2 * (w * z) - lo <= 2 * x <= 2 * (w * z) + hi
    requires -slack <= k * (z * u - e) <= slack
    ensures -(k * (u * lo) + 2 * (w * slack)) <= 2 * (k * (x * u - w * e)) <= k * (u * hi) + 2 * (w * slack)
  {
    MulMono(2 * (w * z) - lo, 2 * x, u);
    MulMono(2 * x, 2 * (w * z) + hi, u);
    assert (2 * (w * z) - lo) * u == 2 * (w * (z * u)) - u * lo;
    assert (2 * (w * z) + hi) * u == 2 * (w * (z * u)) + u * hi;
    NearTimes(x * u, w, z * u, e, u * lo, u * hi, slack, k);
  }

  lemma NearTimes(y: int, w: nat, v: int, e: int, lo: int, hi: int, slack: int, k: int)
    requires 0 < k
    requires 2 * (w * v) - lo <= 2 * y <= 2 * (w * v) + hi
    requires -slack <= k * (v - e) <= slack
    ensures -(k * lo + 2 * (w * slack)) <= 2 * (k * (y - w * e)) <= k * hi + 2 * (w * slack)
  {
    ScaledError(k * (v - e), slack, w);
    assert k * (v - e) * w == k * (w * v - w * e);
    MulMono(-lo, 2 * y - 2 * (w * v), k);
    MulMono(2 * y - 2 * (w * v), hi, k);
    assert (2 * y - 2 * (w * v)) * k == 2 * (k * (y - w * v));
    assert k * (y - w * e) == k * (y - w * v) + k * (w * v - w * e);
  }

  lemma WeightOf(z: int, price: int, threshold: int, ratio: int)
    ensures z * price * ratio * threshold == ratio * price * threshold * z
  {
  }

  lemma CollateralCovered(c: CollateralEntry, indices: Indices)
    requires NonNegativeCollateral(c) && 0 <= IndexOf(indices.liquidity, c.marketID)
    ensures Covers(CollateralBound(c, indices), CollateralTerm(c, indices))
  {
    var current := IndexOf(indices.liquidity, c.marketID);
    var z, u := AccruedBalance(c.supplyBalance, c.supplyIndex, current), Entered(c.supplyIndex);
    var unit, w := PowerOfTen(c.decimals), WAD_RAY_RATIO * c.priceUSD * c.liquidationThreshold;
    var x, threshold := CollateralTerm(c, indices), c.liquidationThreshold;
    var lo, slack := unit * (2 * WadToRay(threshold) + RAY), u * (c.supplyBalance + WAD + RAY);
    assert 2 * (w * z) - lo <= 2 * (RAY * (x * unit)) <= 2 * (w * z) + unit * RAY by {
      AccruedBalanceMono(c.supplyBalance, c.supplyBalance, c.supplyIndex, current, current);
      CollateralTermError(c, indices);
      WeightOf(z, c.priceUSD, threshold, WAD_RAY_RATIO);
    }
    assert -slack <= 2 * RAY * (z * u - c.supplyBalance * Now(c.supplyIndex, current)) <= slack by {
      BalanceError(c.supplyBalance, c.supplyIndex, current);
    }
    assert 0 <= w by { ProductMono(0, 0, WAD_RAY_RATIO * c.priceUSD, threshold); }
    assert 0 < RAY * (u * unit) by { MulStrict(0, u, unit); }
    TwoErrors(RAY * (x * unit), w, z, u, c.supplyBalance * Now(c.supplyIndex, current), lo, unit * RAY, slack, 2 * RAY);
    CollateralRearranged(x, unit, u, w * (c.supplyBalance * Now(c.supplyIndex, current)),
                         2 * WadToRay(threshold) + RAY, w * (u * (c.supplyBalance + WAD + RAY)), RAY);
  }

  lemma CollateralRearranged(x: int, unit: int, u: int, num: int, lo: int, accrual: int, ray: int)
    requires -(2 * ray * (u * (unit * lo)) + 2 * accrual) <= 2 * (2 * ray * (ray * (x * unit) * u - num))
                                                         <= 2 * ray * (u * (unit * ray)) + 2 * accrual
    ensures -(ray * (u * (unit * lo)) + accrual) <= 2 * ray * (x * (ray * (u * unit)) - num)
                                                 <= ray * (u * (unit * ray)) + accrual
  {
    assert ray * (x * unit) * u == x * (ray * (u * unit));
    HalfOf(ray, u * (unit * lo));
    HalfOf(ray, u * (unit * ray));
  }

  lemma HalfOf(a: int, b: int)
    ensures 2 * a * b == 2 * (a * b)
  {
  }

  lemma DebtRearranged(x: int, unit: int, u: int, num: int, one: int, accrual: int, ray: int)
    requires -(2 * ray * (u * (2 * one)) + 2 * accrual) <= 2 * (2 * ray * (x * unit * u - num))
                                                        <= 2 * ray * (u * 0) + 2 * accrual
    ensures -(2 * ray * (u * one) + accrual) <= 2 * ray * (x * (u * unit) - num) <= accrual
  {
    assert x * unit * u == x * (u * unit);
    assert u * (2 * one) == 2 * (u * one);
    HalfOf(ray, u * (2 * one));
    HalfOf(ray, u * one);
  }

  lemma DebtCovered(d: DebtEntry, indices: Indices)
    requires NonNegativeDebt(d) && 0 <= IndexOf(indices.borrow, d.marketID)
    ensures Covers(DebtBound(d, indices), DebtTerm(d, indices))
  {
    var current := IndexOf(indices.borrow, d.marketID);
    var z, u := AccruedBalance(d.borrowBalance, d.borrowIndex, current), Entered(d.borrowIndex);
    var unit, w, x := PowerOfTen(d.decimals), WadToRay(d.priceUSD), DebtTerm(d, indices);
    var slack := u * (d.borrowBalance + WAD + RAY);
    assert 2 * (w * z) - 2 * WadToRay(unit) <= 2 * (x * unit) <= 2 * (w * z) by {
      DebtTermError(d, indices);
      WeightOf(z, d.priceUSD, 1, WAD_RAY_RATIO);
    }
    assert -slack <= 2 * RAY * (z * u - d.borrowBalance * Now(d.borrowIndex, current)) <= slack by {
      BalanceError(d.borrowBalance, d.borrowIndex, current);
    }
    assert 0 < u * unit by { MulStrict(0, u, unit); }
    TwoErrors(x * unit, w, z, u, d.borrowBalance * Now(d.borrowIndex, current), 2 * WadToRay(unit), 0, slack, 2 * RAY);
    DebtRearranged(x, unit, u, w * (d.borrowBalance * Now(d.borrowIndex, current)), WadToRay(unit),
                   w * (u * (d.borrowBalance + WAD + RAY)), RAY);
  }

  // ---------- Both sums ----------

  function Sum(bs: seq<Bound>): Bound {
    if bs == [] then NOTHING else Plus(Sum(bs[..|bs| - 1]), bs[|bs| - 1])
  }

  function Total(xs: seq<int>): int {
    if xs == [] then 0 else Total(xs[..|xs| - 1]) + xs[|xs| - 1]
  }

  lemma {:induction false} SumCovers(bs: seq<Bound>, xs: seq<int>)
    requires |bs| == |xs| && forall i :: 0 <= i < |bs| ==> Covers(bs[i], xs[i])
    ensures Covers(Sum(bs), Total(xs))
  {
    if bs != [] {
      var n := |bs| - 1;
      SumCovers(bs[..n], xs[..n]);
      PlusCovers(Sum(bs[..n]), Total(xs[..n]), bs[n], xs[n]);
    }
  }

  function CollateralTerms(cs: seq<CollateralEntry>, indices: Indices): (xs: seq<int>)
    ensures |xs| == |cs|
  {
    seq(|cs|, i requires 0 <= i < |cs| => CollateralTerm(cs[i], indices))
  }

  function DebtTerms(ds: seq<DebtEntry>, indices: Indices): (xs: seq<int>)
    ensures |xs| == |ds|
  {
    seq(|ds|, i requires 0 <= i < |ds| => DebtTerm(ds[i], indices))
  }

  lemma {:induction false} CollateralIsTotal(cs: seq<CollateralEntry>, indices: Indices)
    ensures WeightedCollateral(cs, indices) == Total(CollateralTerms(cs, indices))
  {
    if cs != [] {
      var n := |cs| - 1;
      CollateralIsTotal(cs[..n], indices);
      assert CollateralTerms(cs, indices)[..n] == CollateralTerms(cs[..n], indices);
    }
  }

  lemma {:induction false} DebtIsTotal(ds: seq<DebtEntry>, indices: Indices)
    ensures TotalDebt(ds, indices) == Total(DebtTerms(ds, indices))
  {
    if ds != [] {
      var n := |ds| - 1;
      DebtIsTotal(ds[..n], indices);
      assert DebtTerms(ds, indices)[..n] == DebtTerms(ds[..n], indices);
    }
  }

  function TotalCollateralBound(cs: seq<CollateralEntry>, indices: Indices): Bound {
    Sum(seq(|cs|, i requires 0 <= i < |cs| => CollateralBound(cs[i], indices)))
  }

  function TotalDebtBound(ds: seq<DebtEntry>, indices: Indices): Bound {
    Sum(seq(|ds|, i requires 0 <= i < |ds| => DebtBound(ds[i], indices)))
  }

  /** The weighted collateral against the exact sum over all entries. */
  lemma WeightedCollateralError(cs: seq<CollateralEntry>, indices: Indices)
    requires forall i :: 0 <= i < |cs| ==> NonNegativeCollateral(cs[i])
    requires NonNegativeIndices(indices)
    ensures Covers(TotalCollateralBound(cs, indices), WeightedCollateral(cs, indices))
  {
    var bs := seq(|cs|, i requires 0 <= i < |cs| => CollateralBound(cs[i], indices));
    var xs := CollateralTerms(cs, indices);
    forall i | 0 <= i < |cs|
      ensures Covers(bs[i], xs[i])
    {
      CollateralCovered(cs[i], indices);
    }
    SumCovers(bs, xs);
    CollateralIsTotal(cs, indices);
  }

  /** And the total debt. */
  lemma TotalDebtError(ds: seq<DebtEntry>, indices: Indices)
    requires forall i :: 0 <= i < |ds| ==> NonNegativeDebt(ds[i])
    requires NonNegativeIndices(indices)
    ensures Covers(TotalDebtBound(ds, indices), TotalDebt(ds, indices))
  {
    var bs := seq(|ds|, i requires 0 <= i < |ds| => DebtBound(ds[i], indices));
    var xs := DebtTerms(ds, indices);
    forall i | 0 <= i < |ds|
      ensures Covers(bs[i], xs[i])
    {
      DebtCovered(ds[i], indices);
    }
    SumCovers(bs, xs);
    DebtIsTotal(ds, indices);
  }

  // ---------- The quotient ----------

  /** hf lies between RAY times the least and the greatest quotient that the two bounds allow, give or take a half. */
  ghost predicate Brackets(k: int, w: Bound, d: Bound, hf: int) {
    && (k * d.den) * (k * w.num - w.below) < ((2 * hf + 1) * w.den) * (k * d.num + d.above)
    && (hf > 0 ==> ((2 * hf - 1) * w.den) * (k * d.num - d.below) <= (k * d.den) * (k * w.num + w.above))
  }

  /** a*p < b*q, with p replaced by something smaller and q by something larger. */
  lemma ChainLess(a: int, p: int, lo: int, b: int, q: int, hi: int)
    requires 0 <= a && 0 <= b && lo <= p && q <= hi && a * p < b * q
    ensures a * lo < b * hi
  {
    MulMono(lo, p, a);
    MulMono(q, hi, b);
  }

  lemma ChainAtMost(b: int, q: int, lo: int, a: int, p: int, hi: int)
    requires 0 <= a && 0 <= b && lo <= q && p <= hi && b * q <= a * p
    ensures b * lo <= a * hi
  {
    MulMono(lo, q, b);
    MulMono(p, hi, a);
  }

  /** m*y against k*x, times k*wd*dd. */
  lemma CrossScaled(m: int, y: int, x: int, wd: int, dd: int, k: int)
    ensures (m * wd) * (k * (y * dd)) == (m * y) * (k * wd * dd)
    ensures (k * dd) * (k * (x * wd)) == (k * x) * (k * wd * dd)
  {
    Regroup(m, wd, k, y, dd);
    Regroup(k, dd, k, x, wd);
    assert k * dd * wd == k * wd * dd;
  }

  lemma Regroup(a: int, b: int, k: int, y: int, c: int)
    ensures (a * b) * (k * (y * c)) == (a * y) * (k * b * c)
  {
    assert (a * b) * (k * (y * c)) == a * (b * (k * (y * c)));
    assert b * (k * (y * c)) == y * (k * b * c);
    assert (a * y) * (k * b * c) == a * (y * (k * b * c));
  }

  lemma CrossLess(m: int, y: int, x: int, wd: int, dd: int, k: int)
    requires 0 < k && 0 < wd && 0 < dd && k * x < m * y
    ensures (k * dd) * (k * (x * wd)) < (m * wd) * (k * (y * dd))
  {
    MulStrict(0, k, wd);
    MulStrict(0, k * wd, dd);
    MulStrict(k * x, m * y, k * wd * dd);
    CrossScaled(m, y, x, wd, dd, k);
  }

  lemma CrossAtMost(m: int, y: int, x: int, wd: int, dd: int, k: int)
    requires 0 < k && 0 < wd && 0 < dd && m * y <= k * x
    ensures (m * wd) * (k * (y * dd)) <= (k * dd) * (k * (x * wd))
  {
    MulStrict(0, k, wd);
    MulStrict(0, k * wd, dd);
    MulMono(m * y, k * x, k * wd * dd);
    CrossScaled(m, y, x, wd, dd, k);
  }

  /** The quotient hf of x and y, nearest, when x and y are known only up to their errors. */
  lemma QuotientBracketed(k: int, w: Bound, x: int, d: Bound, y: int, hf: nat)
    requires 0 < k && 0 < w.den && 0 < d.den
    requires k * w.num - w.below <= k * (x * w.den) <= k * w.num + w.above
    requires k * d.num - d.below <= k * (y * d.den) <= k * d.num + d.above
    requires k * x < (2 * hf + 1) * y && (2 * hf - 1) * y <= k * x
    ensures Brackets(k, w, d, hf)
  {
    var p, q := k * (x * w.den), k * (y * d.den);
    assert 0 <= k * d.den && 0 <= (2 * hf + 1) * w.den by {
      MulStrict(0, k, d.den);
      MulStrict(0, 2 * hf + 1, w.den);
    }
    CrossLess(2 * hf + 1, y, x, w.den, d.den, k);
    ChainLess(k * d.den, p, k * w.num - w.below, (2 * hf + 1) * w.den, q, k * d.num + d.above);
    if hf > 0 {
      MulStrict(0, 2 * hf - 1, w.den);
      CrossAtMost(2 * hf - 1, y, x, w.den, d.den, k);
      ChainAtMost((2 * hf - 1) * w.den, q, k * d.num - d.below, k * d.den, p, k * w.num + w.above);
    }
  }

  lemma CoveredRange(b: Bound, x: int)
    requires Covers(b, x)
    ensures 2 * RAY * b.num - b.below <= 2 * RAY * (x * b.den) <= 2 * RAY * b.num + b.above
  {
  }

  /** The whole health factor against the exact fraction of exact sums, on both sides. */
  lemma HealthFactorError(cs: seq<CollateralEntry>, ds: seq<DebtEntry>, indices: Indices)
    requires forall i :: 0 <= i < |cs| ==> NonNegativeCollateral(cs[i])
    requires forall i :: 0 <= i < |ds| ==> NonNegativeDebt(ds[i])
    requires NonNegativeIndices(indices) && TotalDebt(ds, indices) > 0
    ensures Brackets(2 * RAY, TotalCollateralBound(cs, indices), TotalDebtBound(ds, indices),
                     HealthFactor(cs, ds, indices))
  {
    var w, d, hf := WeightedCollateral(cs, indices), TotalDebt(ds, indices), HealthFactor(cs, ds, indices);
    WeightedCollateralError(cs, indices);
    TotalDebtError(ds, indices);
    assert hf == RayDiv(w, d) >= 0 by {
      CollateralMono(cs, cs, indices, indices);
      RayDivMono(w, d, w, d);
    }
    BracketFactor(TotalCollateralBound(cs, indices), w, TotalDebtBound(ds, indices), d, hf);
  }

  lemma NearestQuotient(w: int, d: int, hf: int)
    requires 0 < d && hf == RayDiv(w, d)
    ensures 2 * RAY * w < (2 * hf + 1) * d && (2 * hf - 1) * d <= 2 * RAY * w
  {
    RayDivIsNearest(w, d, hf);
    Distribute(d, 2 * hf, 1);
    Distribute(d, 2 * hf, -1);
  }

  lemma BracketFactor(a: Bound, w: int, b: Bound, d: int, hf: nat)
    requires Covers(a, w) && Covers(b, d) && 0 < d && hf == RayDiv(w, d)
    ensures Brackets(2 * RAY, a, b, hf)
  {
    NearestQuotient(w, d, hf);
    CoveredRange(a, w);
    CoveredRange(b, d);
    QuotientBracketed(2 * RAY, a, w, b, d, hf);
  }
}
