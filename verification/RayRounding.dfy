/** What RayMul, RayDiv and the Wad/Ray conversions promise, stated without their formulas. */
module RayRounding {
  import opened WadRay

  /** RayMul is the integer nearest to a*b/RAY, ties up, for every sign. */
  lemma RayMulIsNearest(a: int, b: int, q: int)
    ensures q == RayMul(a, b) <==> 2 * (a * b) - RAY < 2 * (q * RAY) <= 2 * (a * b) + RAY
  {
    RoundedDivIsNearest(a * b, RAY, q);
  }

  /** RayDiv is the integer nearest to a*RAY/b, ties up, for every positive divisor, even or odd. */
  lemma RayDivIsNearest(a: int, b: int, q: int)
    requires 0 < b
    ensures q == RayDiv(a, b) <==> 2 * (a * RAY) - b < 2 * (q * b) <= 2 * (a * RAY) + b
  {
    RoundedDivIsNearest(a * RAY, b, q);
  }

  lemma RayMulMono(a: int, b: int, c: int, d: int)
    requires 0 <= a <= c && 0 <= b <= d
    ensures 0 <= RayMul(a, b) <= RayMul(c, d)
  {
    ProductMono(a, b, c, d);
    DivMono(a * b + RAY / 2, c * d + RAY / 2, RAY);
    DivMono(0, a * b + RAY / 2, RAY);
  }

  lemma ProductMono(a: int, b: int, c: int, d: int)
    requires 0 <= a <= c && 0 <= b <= d
    ensures 0 <= a * b <= c * d
  {
    MulMono(0, a, b);
    MulMono(a, c, b);
    MulMono(b, d, c);
  }

  lemma RayDivMono(a: int, b: int, c: int, d: int)
    requires 0 <= a <= c && 0 < d <= b
    ensures 0 <= RayDiv(a, b) <= RayDiv(c, d)
  {
    ProductMono(a * RAY, d, c * RAY, b);
    RoundedDivMono(a * RAY, b, c * RAY, d);
    RoundedDivAtMost(a * RAY, b, -1);
  }

  /** RAY is the unit of both operations. */
  lemma RayIsUnit(a: int)
    ensures RayMul(a, RAY) == a && RayMul(RAY, a) == a && RayDiv(a, RAY) == a
    ensures a > 0 ==> RayDiv(a, a) == RAY
  {
    RayMulIsNearest(a, RAY, a);
    RayMulIsNearest(RAY, a, a);
    RayDivIsNearest(a, RAY, a);
    if a > 0 {
      assert a * RAY == RAY * a;
      RayDivIsNearest(a, a, RAY);
    }
  }

  /** One WAD is one RAY, and converting there and back loses nothing. */
  lemma WadToRayThenRayToWad(x: int)
    ensures RayToWad(WadToRay(x)) == x
    ensures WadToRay(x) * WAD == x * RAY
  {
    RoundedDivIsNearest(x * WAD_RAY_RATIO, WAD_RAY_RATIO, x);
  }

  /** RayToWad is the integer nearest to x * WAD / RAY, ties up, for every sign. */
  lemma RayToWadIsNearest(x: int, q: int)
    ensures q == RayToWad(x) <==> 2 * (x * WAD) - RAY < 2 * (q * RAY) <= 2 * (x * WAD) + RAY
  {
    RoundedDivIsNearest(x, WAD_RAY_RATIO, q);
  }

  lemma RayToWadMono(x: int, y: int)
    requires 0 <= x <= y
    ensures 0 <= RayToWad(x) <= RayToWad(y)
  {
    DivMono(x + WAD_RAY_RATIO / 2, y + WAD_RAY_RATIO / 2, WAD_RAY_RATIO);
    DivMono(0, x + WAD_RAY_RATIO / 2, WAD_RAY_RATIO);
  }

  // ---------- Round trips ----------

  /** Dividing by b and multiplying back is off by at most b/(2*RAY) + 1/2, for every a and every b > 0. */
  lemma RayMulAfterRayDivError(a: int, b: int)
    requires 0 < b
    ensures var r := RayMul(RayDiv(a, b), b);
            -(b + RAY) <= 2 * RAY * (r - a) <= b + RAY
  {
    var x := RayDiv(a, b);
    RayDivIsNearest(a, b, x);
    RayMulIsNearest(x, b, RayMul(x, b));
  }

  /** ... and is the identity when b is at most one RAY. */
  lemma RayMulAfterRayDiv(a: int, b: int)
    requires 0 < b <= RAY
    ensures RayMul(RayDiv(a, b), b) == a
  {
    if b == RAY {
      RayIsUnit(a);
    } else {
      var x := RayDiv(a, b);
      RayDivIsNearest(a, b, x);
      RayMulIsNearest(x, b, a);
    }
  }

  ghost predicate RoundTrips(a: int, b: int)
    requires 0 < b
  {
    RayMul(RayDiv(a, b), b) == a
  }

  /** If every numerator up to k survives the round trip, the quotients are k + 1 distinct integers. */
  lemma {:induction false} RoundTripsForceSpread(k: nat, b: int)
    requires 0 < b
    requires forall a :: 0 <= a <= k ==> RoundTrips(a, b)
    ensures k <= RayDiv(k, b)
  {
    if k == 0 {
      RayDivIsNearest(0, b, 0);
    } else {
      RoundTripsForceSpread(k - 1, b);
      RayDivMono(k - 1, b, k, b);
      assert RoundTrips(k - 1, b) && RoundTrips(k, b);
    }
  }

  /** Exactly the divisors up to one RAY round-trip every numerator. */
  lemma RoundTripExactlyUpToRay(b: int)
    requires 0 < b
    ensures (forall a :: RoundTrips(a, b)) <==> b <= RAY
  {
    if b <= RAY {
      forall a ensures RoundTrips(a, b) { RayMulAfterRayDiv(a, b); }
    } else if forall a :: RoundTrips(a, b) {
      RoundTripsForceSpread(b, b);
      RayIsUnit(b);
    }
  }

  // ---------- Multiplying by a quotient ----------

  lemma ScaledError(e: int, bound: int, k: int)
    requires -bound <= e <= bound && 0 <= k
    ensures -(bound * k) <= e * k <= bound * k
  {
    MulMono(-bound, e, k);
    MulMono(e, bound, k);
  }

  /** c * (a/b), computed with two roundings, is within c/(2*RAY) + 1/2 of the fraction c*a/b. */
  lemma RayMulByQuotientError(c: int, a: int, b: int)
    requires 0 <= c && 0 < b
    ensures var z := RayMul(c, RayDiv(a, b));
            -(b * (c + RAY)) <= 2 * RAY * (z * b - a * c) <= b * (c + RAY)
  {
    var x := RayDiv(a, b);
    RayDivIsNearest(a, b, x);
    RayMulIsNearest(c, x, RayMul(c, x));
    QuotientThenProduct(c, a, b, x, RayMul(c, x), RAY);
  }

  lemma QuotientThenProduct(c: int, a: int, b: int, x: int, z: int, ray: int)
    requires 0 <= c && 0 < b && 0 < ray
    requires -b <= 2 * (x * b - a * ray) <= b
    requires -ray <= 2 * (z * ray - c * x) <= ray
    ensures -(b * (c + ray)) <= 2 * ray * (z * b - a * c) <= b * (c + ray)
  {
    ScaledError(2 * (x * b - a * ray), b, c);
    ScaledError(2 * (z * ray - c * x), ray, b);
    assert 2 * (x * b - a * ray) * c == 2 * (c * x * b) - 2 * ray * (a * c);
    assert 2 * (z * ray - c * x) * b == 2 * ray * (z * b) - 2 * (c * x * b);
  }
}
