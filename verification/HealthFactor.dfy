/** Health factors of leveraged positions (internal/liquidation/scanner/scanner.go, CalculateHealthFactor). */
module HealthFactors {
  import opened Options
  import opened Addresses
  import opened WadRay
  import opened RayRounding
  import opened RateModel
  import opened RateComputers

  datatype CollateralEntry = CollateralEntry(
    marketID: int, assetAddress: Address, supplyBalance: int, supplyIndex: Option<int>,
    liquidationThreshold: int, priceUSD: int, decimals: int)

  datatype DebtEntry = DebtEntry(
    marketID: int, assetAddress: Address, borrowBalance: int, borrowIndex: Option<int>,
    priceUSD: int, decimals: int)

  /** Stands for "no debt"; positions with little debt can exceed it. */
  const NO_DEBT_FACTOR: int := 1000 * RAY

  /** An unknown market accrues nothing. */
  function IndexOf(indices: map<int, int>, marketID: int): int {
    if marketID in indices then indices[marketID] else RAY
  }

  /** The principal scaled by the growth of the index since the user entered; a missing index scales nothing. */
  function AccruedBalance(principal: int, userIndex: Option<int>, current: int): int {
    if userIndex.Some? && userIndex.value > 0 then
      RayToWad(RayMul(WadToRay(principal), RayDiv(current, userIndex.value)))
    else
      principal
  }

  /** 10^n, and 1 for a non-positive n, as big.Int.Exp has it. */
  function PowerOfTen(n: int): (p: int)
    ensures 0 < p
    decreases n
  {
    if n <= 0 then 1 else 10 * PowerOfTen(n - 1)
  }

  /** It turns sums into products, and starts at 1 and 10. */
  lemma {:induction false} PowerOfTenAdds(m: nat, n: nat)
    ensures PowerOfTen(m + n) == PowerOfTen(m) * PowerOfTen(n)
    ensures PowerOfTen(0 - m) == 1 && PowerOfTen(1) == 10
    decreases n
  {
    if n > 0 {
      PowerOfTenAdds(m, n - 1);
      assert 10 * (PowerOfTen(m) * PowerOfTen(n - 1)) == PowerOfTen(m) * (10 * PowerOfTen(n - 1));
    }
  }

  /** The decimals of most tokens: 10^6 and 10^18. */
  lemma PowersOfTen()
    ensures PowerOfTen(6) == 1_000_000 && PowerOfTen(18) == WAD
  {
    PowerOfTenAdds(1, 1);
    PowerOfTenAdds(2, 1);
    PowerOfTenAdds(3, 3);
    PowerOfTenAdds(6, 6);
    PowerOfTenAdds(12, 6);
  }

  /** Value in 8-decimal USD. */
  function ValueUSD(balance: int, priceUSD: int, decimals: int): int {
    balance * priceUSD / PowerOfTen(decimals)
  }

  function CollateralTerm(c: CollateralEntry, indices: Indices): int {
    var balance := AccruedBalance(c.supplyBalance, c.supplyIndex, IndexOf(indices.liquidity, c.marketID));
    RayMul(WadToRay(ValueUSD(balance, c.priceUSD, c.decimals)), c.liquidationThreshold)
  }

  function DebtTerm(d: DebtEntry, indices: Indices): int {
    var balance := AccruedBalance(d.borrowBalance, d.borrowIndex, IndexOf(indices.borrow, d.marketID));
    WadToRay(ValueUSD(balance, d.priceUSD, d.decimals))
  }

  function WeightedCollateral(cs: seq<CollateralEntry>, indices: Indices): int {
    if cs == [] then 0 else WeightedCollateral(cs[..|cs| - 1], indices) + CollateralTerm(cs[|cs| - 1], indices)
  }

  function TotalDebt(ds: seq<DebtEntry>, indices: Indices): int {
    if ds == [] then 0 else TotalDebt(ds[..|ds| - 1], indices) + DebtTerm(ds[|ds| - 1], indices)
  }

  function HealthFactor(cs: seq<CollateralEntry>, ds: seq<DebtEntry>, indices: Indices): int {
    var debt := TotalDebt(ds, indices);
    if debt == 0 then NO_DEBT_FACTOR else RayDiv(WeightedCollateral(cs, indices), debt)
  }

  /** Never divides by zero, whatever the entries hold. */
  method CalculateHealthFactor(cs: seq<CollateralEntry>, ds: seq<DebtEntry>, indices: Indices) returns (hf: int)
    ensures hf == HealthFactor(cs, ds, indices)
  {
    var totalWeightedCollateral, totalDebt := 0, 0;
    for i := 0 to |cs|
      invariant totalWeightedCollateral == WeightedCollateral(cs[..i], indices)
    {
      var c := cs[i];
      var currentLiqIdx := IndexOf(indices.liquidity, c.marketID);
      var actualBalance := AccruedBalance(c.supplyBalance, c.supplyIndex, currentLiqIdx);
      var value := actualBalance * c.priceUSD / PowerOfTen(c.decimals);
      var weighted := RayMul(WadToRay(value), c.liquidationThreshold);
      totalWeightedCollateral := totalWeightedCollateral + weighted;
      assert cs[..i + 1][..i] == cs[..i];
    }
    for i := 0 to |ds|
      invariant totalDebt == TotalDebt(ds[..i], indices)
    {
      var d := ds[i];
      var currentBorrowIdx := IndexOf(indices.borrow, d.marketID);
      var actualDebt := AccruedBalance(d.borrowBalance, d.borrowIndex, currentBorrowIdx);
      var value := actualDebt * d.priceUSD / PowerOfTen(d.decimals);
      totalDebt := totalDebt + WadToRay(value);
      assert ds[..i + 1][..i] == ds[..i];
    }
    assert cs[..|cs|] == cs && ds[..|ds|] == ds;
    if totalDebt == 0 {
      return NO_DEBT_FACTOR;
    }
    hf := RayDiv(totalWeightedCollateral, totalDebt);
  }

  // ---------- Accrued balances ----------

  lemma ChainedRounding(z: int, y: int, user: int, exact: int, b: int)
    requires 0 < user
    requires -WAD_RAY_RATIO <= 2 * (z * WAD_RAY_RATIO - y) <= WAD_RAY_RATIO
    requires -(user * (b * WAD_RAY_RATIO + RAY)) <= 2 * RAY * (y * user - exact * WAD_RAY_RATIO)
                                                <= user * (b * WAD_RAY_RATIO + RAY)
    ensures -(user * (b + WAD + RAY)) <= 2 * RAY * (z * user - exact) <= user * (b + WAD + RAY)
  {
    ScaledError(2 * (z * WAD_RAY_RATIO - y), WAD_RAY_RATIO, user);
    assert 2 * (z * WAD_RAY_RATIO - y) * user == 2 * WAD_RAY_RATIO * (z * user) - 2 * (y * user);
    assert user * (b * WAD_RAY_RATIO + RAY) == WAD_RAY_RATIO * (user * b) + RAY * user;
    assert user * (b + WAD + RAY) == user * b + WAD * user + RAY * user;
  }

  /** Three nested roundings keep the balance within b/(2*RAY) + 1/2 + 1/(2*10^9) units of principal * current /
      user. */
  lemma AccruedBalanceError(b: nat, user: int, current: int)
    requires 0 < user
    ensures var z := AccruedBalance(b, Some(user), current);
            -(user * (b + WAD + RAY)) <= 2 * RAY * (z * user - b * current) <= user * (b + WAD + RAY)
  {
    var y := RayMul(WadToRay(b), RayDiv(current, user));
    RayMulByQuotientError(WadToRay(b), current, user);
    assert current * WadToRay(b) == b * current * WAD_RAY_RATIO;
    RoundedDivIsNearest(y, WAD_RAY_RATIO, RayToWad(y));
    ChainedRounding(RayToWad(y), y, user, b * current, b);
  }

  /** An index that has not moved leaves the principal exactly as it was. */
  lemma AccruedBalanceUnmoved(b: int, index: int)
    requires 0 < index
    ensures AccruedBalance(b, Some(index), index) == b
  {
    AccruedBalanceGrown(b, index, 1);
  }

  /** And an index that stands at a whole multiple of what it was multiplies the principal by exactly that. */
  lemma AccruedBalanceGrown(b: int, index: int, times: int)
    requires 0 < index
    ensures AccruedBalance(b, Some(index), times * index) == b * times
  {
    assert RayDiv(times * index, index) == times * RAY by {
      assert times * index * RAY == times * RAY * index;
      RayDivIsNearest(times * index, index, times * RAY);
    }
    assert RayMul(WadToRay(b), times * RAY) == WadToRay(b * times) by {
      assert WadToRay(b) * (times * RAY) == WadToRay(b * times) * RAY;
      RayMulIsNearest(WadToRay(b), times * RAY, WadToRay(b * times));
    }
    WadToRayThenRayToWad(b * times);
  }

  /** A grown index never shrinks what is owed. */
  lemma AccruedAtLeastPrincipal(b: nat, user: int, current: int)
    requires 0 < user <= current
    ensures b <= AccruedBalance(b, Some(user), current)
  {
    AccruedBalanceUnmoved(b, user);
    AccruedBalanceMono(b, b, Some(user), user, current);
  }

  lemma AccruedBalanceMono(b1: nat, b2: nat, user: Option<int>, current1: nat, current2: nat)
    requires b1 <= b2 && current1 <= current2
    ensures 0 <= AccruedBalance(b1, user, current1) <= AccruedBalance(b2, user, current2)
  {
    if user.Some? && user.value > 0 {
      var x1, x2 := RayDiv(current1, user.value), RayDiv(current2, user.value);
      RayDivMono(current1, user.value, current2, user.value);
      RayMulMono(WadToRay(b1), x1, WadToRay(b2), x2);
      RayToWadMono(RayMul(WadToRay(b1), x1), RayMul(WadToRay(b2), x2));
    }
  }

  /** A market nobody knows stands at one RAY: a user who entered there, or at no index at all, keeps the principal. */
  lemma UnknownMarketAccruesNothing(b: int, userIndex: Option<int>, indices: map<int, int>, marketID: int)
    requires marketID !in indices
    requires userIndex.Some? && userIndex.value > 0 ==> userIndex.value == RAY
    ensures AccruedBalance(b, userIndex, IndexOf(indices, marketID)) == b
  {
    AccruedBalanceUnmoved(b, RAY);
  }

  lemma ValueMono(b1: nat, b2: nat, price1: nat, price2: nat, decimals: int)
    requires b1 <= b2 && price1 <= price2
    ensures 0 <= ValueUSD(b1, price1, decimals) <= ValueUSD(b2, price2, decimals)
  {
    ProductMono(b1, price1, b2, price2);
    DivMono(0, b1 * price1, PowerOfTen(decimals));
    DivMono(b1 * price1, b2 * price2, PowerOfTen(decimals));
  }

  // ---------- Terms against exact fractions ----------

  lemma WeightedValueError(v: nat, value: nat, unit: int, threshold: nat, q: int)
    requires 0 < unit && v * unit <= value < v * unit + unit
    requires -RAY <= 2 * (q * RAY - WadToRay(v) * threshold) <= RAY
    ensures 2 * (WadToRay(value) * threshold) - unit * (2 * WadToRay(threshold) + RAY)
         <= 2 * RAY * (q * unit)
         <= 2 * (WadToRay(value) * threshold) + unit * RAY
  {
    ScaledError(2 * (q * RAY - WadToRay(v) * threshold), RAY, unit);
    MulMono(v * unit, value, WAD_RAY_RATIO * threshold);
    MulMono(value, v * unit + unit, WAD_RAY_RATIO * threshold);
    assert 2 * (q * RAY - WadToRay(v) * threshold) * unit
           == 2 * RAY * (q * unit) - 2 * (v * unit * (WAD_RAY_RATIO * threshold));
    assert WadToRay(value) * threshold == value * (WAD_RAY_RATIO * threshold);
    assert (v * unit + unit) * (WAD_RAY_RATIO * threshold)
           == v * unit * (WAD_RAY_RATIO * threshold) + unit * WadToRay(threshold);
  }

  /** A collateral's weight is balance * price * threshold / 10^decimals, scaled by 10^9 / RAY: the truncated value can
      cost one 8-decimal dollar unit, and the product is rounded. */
  lemma CollateralTermError(c: CollateralEntry, indices: Indices)
    requires 0 <= c.priceUSD && 0 <= c.liquidationThreshold
    requires 0 <= AccruedBalance(c.supplyBalance, c.supplyIndex, IndexOf(indices.liquidity, c.marketID))
    ensures var current := if c.marketID in indices.liquidity then indices.liquidity[c.marketID] else RAY;
            var value := AccruedBalance(c.supplyBalance, c.supplyIndex, current) * c.priceUSD;
            var exact, unit := WadToRay(value) * c.liquidationThreshold, PowerOfTen(c.decimals);
            2 * exact - unit * (2 * WadToRay(c.liquidationThreshold) + RAY)
            <= 2 * RAY * (CollateralTerm(c, indices) * unit)
            <= 2 * exact + unit * RAY
  {
    var balance := AccruedBalance(c.supplyBalance, c.supplyIndex, IndexOf(indices.liquidity, c.marketID));
    var unit := PowerOfTen(c.decimals);
    var v := ValueUSD(balance, c.priceUSD, c.decimals);
    ValueMono(0, balance, 0, c.priceUSD, c.decimals);
    DivBounds(balance * c.priceUSD, unit);
    RayMulIsNearest(WadToRay(v), c.liquidationThreshold, CollateralTerm(c, indices));
    WeightedValueError(v, balance * c.priceUSD, unit, c.liquidationThreshold, CollateralTerm(c, indices));
  }

  /** A debt's weight is balance * price / 10^decimals, truncated, times 10^9. */
  lemma DebtTermError(d: DebtEntry, indices: Indices)
    ensures var current := if d.marketID in indices.borrow then indices.borrow[d.marketID] else RAY;
            var value := AccruedBalance(d.borrowBalance, d.borrowIndex, current) * d.priceUSD;
            var unit := PowerOfTen(d.decimals);
            DebtTerm(d, indices) * unit <= WadToRay(value) < DebtTerm(d, indices) * unit + WadToRay(unit)
  {
    var value := AccruedBalance(d.borrowBalance, d.borrowIndex, IndexOf(indices.borrow, d.marketID)) * d.priceUSD;
    DivBounds(value, PowerOfTen(d.decimals));
  }

  /** A whole number of tokens at one dollar, without accrual. */
  lemma WholeTokensValue(tokens: nat, unit: int)
    requires 0 < unit
    ensures tokens * unit * 100_000_000 / unit == tokens * 100_000_000
  {
    assert tokens * unit * 100_000_000 == tokens * 100_000_000 * unit;
    QuotientExact(tokens * 100_000_000, unit);
  }

  lemma PercentOf(dollars: nat, percent: nat)
    ensures RayMul(WadToRay(dollars * 100_000_000), percent * (RAY / 100)) == dollars * percent * 1_000_000_000_000_000
  {
    var w := dollars * percent * 1_000_000_000_000_000;
    assert WadToRay(dollars * 100_000_000) * (percent * (RAY / 100)) == w * RAY;
    RayMulIsNearest(WadToRay(dollars * 100_000_000), percent * (RAY / 100), w);
  }

  lemma OneCollateral(c: CollateralEntry, indices: Indices)
    ensures WeightedCollateral([c], indices) == CollateralTerm(c, indices)
  {
    assert [c][..0] == [];
  }

  lemma OneDebt(d: DebtEntry, indices: Indices)
    ensures TotalDebt([d], indices) == DebtTerm(d, indices)
  {
    assert [d][..0] == [];
  }

  /** One collateral of whole tokens at one dollar each, whose index has grown m times since entry; a market that is not
      known stands at one RAY. */
  lemma WholeDollarCollateral(c: CollateralEntry, dollars: nat, percent: nat, m: nat, index: int, indices: Indices)
    requires 0 < index && c.supplyIndex == Some(index)
    requires (if c.marketID in indices.liquidity then indices.liquidity[c.marketID] else RAY) == m * index
    requires c.supplyBalance == dollars * PowerOfTen(c.decimals) && c.priceUSD == 100_000_000
    requires c.liquidationThreshold == percent * (RAY / 100)
    ensures WeightedCollateral([c], indices) == dollars * m * percent * 1_000_000_000_000_000
  {
    AccruedBalanceGrown(c.supplyBalance, index, m);
    assert c.supplyBalance * m == dollars * m * PowerOfTen(c.decimals);
    WholeTokensValue(dollars * m, PowerOfTen(c.decimals));
    PercentOf(dollars * m, percent);
    OneCollateral(c, indices);
  }

  /** And one such debt, grown k times. */
  lemma WholeDollarDebt(d: DebtEntry, debt: nat, k: nat, index: int, indices: Indices)
    requires 0 < index && d.borrowIndex == Some(index)
    requires (if d.marketID in indices.borrow then indices.borrow[d.marketID] else RAY) == k * index
    requires d.borrowBalance == debt * PowerOfTen(d.decimals) && d.priceUSD == 100_000_000
    ensures TotalDebt([d], indices) == debt * k * 100_000_000_000_000_000
  {
    AccruedBalanceGrown(d.borrowBalance, index, k);
    assert d.borrowBalance * k == debt * k * PowerOfTen(d.decimals);
    WholeTokensValue(debt * k, PowerOfTen(d.decimals));
    OneDebt(d, indices);
  }

  /** A position of whole tokens at one dollar each whose collateral has grown m times and whose debt k times since
      entry: its factor is collateral * m * percent / (100 * debt * k), to the nearest unit of RAY. A market that is not
      known stands at one RAY. */
  lemma WholeDollarHealthFactor(c: CollateralEntry, d: DebtEntry, dollars: nat, debt: nat, percent: nat, m: nat, k: nat,
                                index1: int, index2: int, indices: Indices)
    requires 0 < debt && 0 < k && 0 < index1 && 0 < index2
    requires c.supplyBalance == dollars * PowerOfTen(c.decimals) && c.priceUSD == 100_000_000
    requires c.supplyIndex == Some(index1)
    requires (if c.marketID in indices.liquidity then indices.liquidity[c.marketID] else RAY) == m * index1
    requires c.liquidationThreshold == percent * (RAY / 100)
    requires d.borrowBalance == debt * PowerOfTen(d.decimals) && d.priceUSD == 100_000_000
    requires d.borrowIndex == Some(index2)
    requires (if d.marketID in indices.borrow then indices.borrow[d.marketID] else RAY) == k * index2
    ensures HealthFactor([c], [d], indices) == RayDiv(dollars * m * percent, 100 * (debt * k))
  {
    WholeDollarCollateral(c, dollars, percent, m, index1, indices);
    WholeDollarDebt(d, debt, k, index2, indices);
    MulStrict(0, debt, k);
    RayDivSameRatio(dollars * m * percent, 100 * (debt * k), 1_000_000_000_000_000);
  }

  /** 150 dollars of collateral that count in full against 100 dollars of debt: healthy, until the debt's index has
      doubled. The tokens have 18 and 6 decimals. */
  lemma GrownDebtWitness()
    ensures var cs := [CollateralEntry(1, 1, 150 * WAD, Some(RAY), RAY, 100_000_000, 18)];
            var ds := [DebtEntry(2, 2, 100_000_000, Some(RAY), 100_000_000, 6)];
            && HealthFactor(cs, ds, Indices(map[2 := RAY], map[1 := RAY])) == 3 * RAY / 2
            && HealthFactor(cs, ds, Indices(map[2 := 2 * RAY], map[1 := RAY])) == 3 * RAY / 4
            && HealthFactor(cs, ds, Indices(map[2 := 2 * RAY], map[1 := 2 * RAY])) == 3 * RAY / 2
  {
    var c := CollateralEntry(1, 1, 150 * WAD, Some(RAY), RAY, 100_000_000, 18);
    var d := DebtEntry(2, 2, 100_000_000, Some(RAY), 100_000_000, 6);
    PowersOfTen();
    WholeDollarHealthFactor(c, d, 150, 100, 100, 1, 1, RAY, RAY, Indices(map[2 := RAY], map[1 := RAY]));
    WholeDollarHealthFactor(c, d, 150, 100, 100, 1, 2, RAY, RAY, Indices(map[2 := 2 * RAY], map[1 := RAY]));
    WholeDollarHealthFactor(c, d, 150, 100, 100, 2, 2, RAY, RAY, Indices(map[2 := 2 * RAY], map[1 := 2 * RAY]));
    RayDivIsNearest(15_000, 10_000, 3 * RAY / 2);
    RayDivIsNearest(15_000, 20_000, 3 * RAY / 4);
    RayDivIsNearest(30_000, 20_000, 3 * RAY / 2);
  }

  lemma QuotientExact(q: int, d: int)
    requires 0 < d
    ensures q * d / d == q
  {
    DivGreatest(q * d, d, q);
    DivBounds(q * d, d);
    if q < q * d / d { MulMono(q + 1, q * d / d, d); }
  }

  lemma RayDivSameRatio(a: int, b: int, k: int)
    requires 0 < b && 0 < k
    ensures RayDiv(a * k, b * k) == RayDiv(a, b)
  {
    assert a * k * RAY * b == a * RAY * (b * k);
    RoundedDivMono(a * k * RAY, b * k, a * RAY, b);
    RoundedDivMono(a * RAY, b, a * k * RAY, b * k);
  }

  // ---------- Safer positions ----------

  predicate NonNegativeCollateral(c: CollateralEntry) {
    0 <= c.supplyBalance && 0 <= c.priceUSD && 0 <= c.liquidationThreshold
  }

  predicate NonNegativeDebt(d: DebtEntry) {
    0 <= d.borrowBalance && 0 <= d.priceUSD
  }

  ghost predicate NonNegativeIndices(ix: Indices) {
    && (forall id :: id in ix.borrow ==> 0 <= ix.borrow[id])
    && (forall id :: id in ix.liquidity ==> 0 <= ix.liquidity[id])
  }

  /** c2 is c1 with at least its balance, price and threshold. */
  predicate MoreCollateral(c1: CollateralEntry, c2: CollateralEntry) {
    && c1 == c2.(supplyBalance := c1.supplyBalance, priceUSD := c1.priceUSD,
                liquidationThreshold := c1.liquidationThreshold)
    && c1.supplyBalance <= c2.supplyBalance
    && c1.priceUSD <= c2.priceUSD
    && c1.liquidationThreshold <= c2.liquidationThreshold
  }

  predicate LessDebt(d1: DebtEntry, d2: DebtEntry) {
    && d1 == d2.(borrowBalance := d1.borrowBalance, priceUSD := d1.priceUSD)
    && d2.borrowBalance <= d1.borrowBalance
    && d2.priceUSD <= d1.priceUSD
  }

  /** The second position, at the second set of indices, is at least as safe entry by entry. */
  ghost predicate Safer(cs1: seq<CollateralEntry>, ds1: seq<DebtEntry>, ix1: Indices,
                        cs2: seq<CollateralEntry>, ds2: seq<DebtEntry>, ix2: Indices)
  {
    && |cs1| == |cs2| && |ds1| == |ds2|
    && (forall i :: 0 <= i < |cs1| ==> NonNegativeCollateral(cs1[i]) && MoreCollateral(cs1[i], cs2[i]))
    && (forall i :: 0 <= i < |ds1| ==> NonNegativeDebt(ds2[i]) && LessDebt(ds1[i], ds2[i]))
    && (forall i :: 0 <= i < |cs1| ==>
          IndexOf(ix1.liquidity, cs1[i].marketID) <= IndexOf(ix2.liquidity, cs1[i].marketID))
    && (forall i :: 0 <= i < |ds1| ==> IndexOf(ix2.borrow, ds1[i].marketID) <= IndexOf(ix1.borrow, ds1[i].marketID))
    && NonNegativeIndices(ix1) && NonNegativeIndices(ix2)
  }

  lemma CollateralTermMono(c1: CollateralEntry, c2: CollateralEntry, ix1: Indices, ix2: Indices)
    requires NonNegativeCollateral(c1) && MoreCollateral(c1, c2)
    requires 0 <= IndexOf(ix1.liquidity, c1.marketID) <= IndexOf(ix2.liquidity, c1.marketID)
    ensures 0 <= CollateralTerm(c1, ix1) <= CollateralTerm(c2, ix2)
  {
    var i1, i2 := IndexOf(ix1.liquidity, c1.marketID), IndexOf(ix2.liquidity, c1.marketID);
    AccruedBalanceMono(c1.supplyBalance, c2.supplyBalance, c1.supplyIndex, i1, i2);
    var b1 := AccruedBalance(c1.supplyBalance, c1.supplyIndex, i1);
    var b2 := AccruedBalance(c2.supplyBalance, c1.supplyIndex, i2);
    ValueMono(b1, b2, c1.priceUSD, c2.priceUSD, c1.decimals);
    RayMulMono(WadToRay(ValueUSD(b1, c1.priceUSD, c1.decimals)), c1.liquidationThreshold,
               WadToRay(ValueUSD(b2, c2.priceUSD, c1.decimals)), c2.liquidationThreshold);
  }

  lemma DebtTermMono(d1: DebtEntry, d2: DebtEntry, ix1: Indices, ix2: Indices)
    requires NonNegativeDebt(d2) && LessDebt(d1, d2)
    requires 0 <= IndexOf(ix2.borrow, d1.marketID) <= IndexOf(ix1.borrow, d1.marketID)
    ensures 0 <= DebtTerm(d2, ix2) <= DebtTerm(d1, ix1)
  {
    var i1, i2 := IndexOf(ix1.borrow, d1.marketID), IndexOf(ix2.borrow, d1.marketID);
    AccruedBalanceMono(d2.borrowBalance, d1.borrowBalance, d1.borrowIndex, i2, i1);
    ValueMono(AccruedBalance(d2.borrowBalance, d1.borrowIndex, i2),
              AccruedBalance(d1.borrowBalance, d1.borrowIndex, i1),
              d2.priceUSD, d1.priceUSD, d1.decimals);
  }

  lemma {:induction false} CollateralMono(cs1: seq<CollateralEntry>, cs2: seq<CollateralEntry>, ix1: Indices,
                                          ix2: Indices)
    requires |cs1| == |cs2|
    requires forall i :: 0 <= i < |cs1| ==> NonNegativeCollateral(cs1[i]) && MoreCollateral(cs1[i], cs2[i])
    requires forall i :: 0 <= i < |cs1| ==>
               0 <= IndexOf(ix1.liquidity, cs1[i].marketID) <= IndexOf(ix2.liquidity, cs1[i].marketID)
    ensures 0 <= WeightedCollateral(cs1, ix1) <= WeightedCollateral(cs2, ix2)
  {
    if cs1 != [] {
      var n := |cs1| - 1;
      CollateralMono(cs1[..n], cs2[..n], ix1, ix2);
      CollateralTermMono(cs1[n], cs2[n], ix1, ix2);
    }
  }

  lemma {:induction false} DebtMono(ds1: seq<DebtEntry>, ds2: seq<DebtEntry>, ix1: Indices, ix2: Indices)
    requires |ds1| == |ds2|
    requires forall i :: 0 <= i < |ds1| ==> NonNegativeDebt(ds2[i]) && LessDebt(ds1[i], ds2[i])
    requires forall i :: 0 <= i < |ds1| ==>
               0 <= IndexOf(ix2.borrow, ds1[i].marketID) <= IndexOf(ix1.borrow, ds1[i].marketID)
    ensures 0 <= TotalDebt(ds2, ix2) <= TotalDebt(ds1, ix1)
  {
    if ds1 != [] {
      var n := |ds1| - 1;
      DebtMono(ds1[..n], ds2[..n], ix1, ix2);
      DebtTermMono(ds1[n], ds2[n], ix1, ix2);
    }
  }

  /** As long as debt remains, a position that is safer entry by entry never has a lower health factor,
      through all five nested roundings. */
  lemma HealthFactorMono(cs1: seq<CollateralEntry>, ds1: seq<DebtEntry>, ix1: Indices,
                         cs2: seq<CollateralEntry>, ds2: seq<DebtEntry>, ix2: Indices)
    requires Safer(cs1, ds1, ix1, cs2, ds2, ix2)
    requires TotalDebt(ds2, ix2) > 0
    ensures HealthFactor(cs1, ds1, ix1) <= HealthFactor(cs2, ds2, ix2)
  {
    CollateralMono(cs1, cs2, ix1, ix2);
    DebtMono(ds1, ds2, ix1, ix2);
    RayDivMono(WeightedCollateral(cs1, ix1), TotalDebt(ds1, ix1), WeightedCollateral(cs2, ix2), TotalDebt(ds2, ix2));
  }

  /** Repaying everything can lower the reported factor, because the sentinel is not a maximum:
      it does so exactly when the collateral covered the debt at least 1000 + 1/(2*RAY) times. */
  lemma FullRepaymentLowersFactorIff(cs: seq<CollateralEntry>, ds: seq<DebtEntry>, ix: Indices)
    requires TotalDebt(ds, ix) > 0
    ensures HealthFactor(cs, [], ix) < HealthFactor(cs, ds, ix)
            <==> 2 * (WeightedCollateral(cs, ix) * RAY) >= (2 * NO_DEBT_FACTOR + 1) * TotalDebt(ds, ix)
  {
    RoundedDivAtMost(WeightedCollateral(cs, ix) * RAY, TotalDebt(ds, ix), NO_DEBT_FACTOR);
  }

  /** 2000 dollars of collateral that count in full, against one dollar of debt: repaying it halves the factor. */
  lemma RepaymentWitness()
    ensures var cs := [CollateralEntry(1, 1, 2000, Some(RAY), 100 * (RAY / 100), 100_000_000, 0)];
            var ds := [DebtEntry(2, 2, 1, Some(RAY), 100_000_000, 0)];
            var ix := Indices(map[], map[]);
            HealthFactor(cs, ds, ix) == 2000 * RAY && HealthFactor(cs, [], ix) == 1000 * RAY
  {
    var c := CollateralEntry(1, 1, 2000, Some(RAY), 100 * (RAY / 100), 100_000_000, 0);
    var d := DebtEntry(2, 2, 1, Some(RAY), 100_000_000, 0);
    WholeDollarHealthFactor(c, d, 2000, 1, 100, 1, 1, RAY, RAY, Indices(map[], map[]));
    RayDivIsNearest(2000 * 100, 100, 2000 * RAY);
  }

  // ---------- The liquidation threshold ----------

  /** The decision itself: with collateral w and debt d, the rounded factor falls below one RAY
      exactly when the shortfall d - w exceeds d / (2 * RAY). */
  lemma BelowOneRayIff(w: int, d: int)
    requires 0 < d
    ensures RayDiv(w, d) < RAY <==> d < 2 * RAY * (d - w)
  {
    RoundedDivAtMost(w * RAY, d, RAY - 1);
    assert (2 * (RAY - 1) + 1) * d == 2 * RAY * d - d;
  }

  /** Below one RAY there is debt and it exceeds the weighted collateral; while debt is under 2 * RAY
      the converse holds too. */
  lemma LiquidatableMeansUnderwater(w: nat, d: nat)
    ensures var hf := if d == 0 then NO_DEBT_FACTOR else RayDiv(w, d);
            && (hf < RAY ==> 0 < d && w < d)
            && (d < 2 * RAY ==> (hf < RAY <==> w < d))
  {
    if d > 0 {
      BelowOneRayIff(w, d);
    }
  }

  /** From 2 * RAY of debt on, a shortfall of one unit is rounded away: the bound above is the best possible. */
  lemma TinyShortfallRoundedAway(d: int)
    requires 2 * RAY <= d
    ensures RayDiv(d - 1, d) == RAY
  {
    BelowOneRayIff(d - 1, d);
    RoundedDivAtMost((d - 1) * RAY, d, RAY);
    assert (2 * RAY + 1) * d == 2 * (d * RAY) + d;
  }

  // ---------- Time ----------

  ghost predicate AllWellFormed(pools: map<int, PoolState>) {
    forall id :: id in pools ==> WellFormed(pools[id])
  }

  /** Borrow indices of a set of pools at a given time; the liquidity indices are those given. */
  function IndicesOver(pools: map<int, PoolState>, now: int, liquidity: map<int, int>): Indices {
    Indices(map id | id in pools :: Accrue(pools[id], now).borrowIndex, liquidity)
  }

  /** Interest only ever eats into safety: with collateral indices held fixed, the factor never rises with time. */
  lemma HealthFactorFallsWithTime(cs: seq<CollateralEntry>, ds: seq<DebtEntry>, pools: map<int, PoolState>,
                                  liquidity: map<int, int>, now1: int, now2: int)
    requires forall i :: 0 <= i < |cs| ==> NonNegativeCollateral(cs[i])
    requires forall i :: 0 <= i < |ds| ==> NonNegativeDebt(ds[i])
    requires AllWellFormed(pools) && (forall id :: id in liquidity ==> 0 <= liquidity[id])
    requires now1 <= now2
    requires TotalDebt(ds, IndicesOver(pools, now1, liquidity)) > 0
    ensures HealthFactor(cs, ds, IndicesOver(pools, now2, liquidity))
         <= HealthFactor(cs, ds, IndicesOver(pools, now1, liquidity))
  {
    forall id | id in pools
      ensures 0 <= Accrue(pools[id], now1).borrowIndex <= Accrue(pools[id], now2).borrowIndex
    {
      var p := pools[id];
      ExtrapolateIndexMono(p.borrowIndex, p.borrowIndex, p.borrowRate, p.borrowRate, p.lastUpdate, now1, now2);
    }
    HealthFactorMono(cs, ds, IndicesOver(pools, now2, liquidity), cs, ds, IndicesOver(pools, now1, liquidity));
  }
}
