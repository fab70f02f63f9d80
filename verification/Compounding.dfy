/** CalculateCompoundedInterest against true compounding, RAY * (1 + rate / (RAY * SECONDS_PER_YEAR))^t.
    Fractions are cleared: with d = RAY * SECONDS_PER_YEAR, the power is (d + rate)^t / d^t. */
module Compounding {
  import opened WadRay
  import opened RayRounding
  import opened Interest

  function Power(b: int, n: nat): int {
    if n == 0 then 1 else Power(b, n - 1) * b
  }

  /** The k-th term of the binomial expansion of (d + r)^n, by Pascal's rule. */
  function Term(d: int, r: int, n: nat, k: nat): int {
    if n == 0 then (if k == 0 then 1 else 0)
    else d * Term(d, r, n - 1, k) + (if k == 0 then 0 else r * Term(d, r, n - 1, k - 1))
  }

  /** The expansion cut off after its k-th term. */
  function Truncated(d: int, r: int, n: nat, k: nat): int {
    Term(d, r, n, k) + (if k == 0 then 0 else Truncated(d, r, n, k - 1))
  }

  lemma {:induction false} PowerPositive(b: int, n: nat)
    requires b > 0
    ensures Power(b, n) > 0
  {
    if n > 0 {
      PowerPositive(b, n - 1);
      MulStrict(0, Power(b, n - 1), b);
    }
  }

  lemma {:induction false} TruncatedStep(d: int, r: int, n: nat, k: nat)
    ensures Truncated(d, r, n + 1, k)
            == d * Truncated(d, r, n, k) + (if k == 0 then 0 else r * Truncated(d, r, n, k - 1))
  {
    if k > 0 {
      TruncatedStep(d, r, n, k - 1);
      Distribute(d, Term(d, r, n, k), Truncated(d, r, n, k - 1));
      if k > 1 {
        Distribute(r, Term(d, r, n, k - 1), Truncated(d, r, n, k - 2));
      }
    }
  }

  lemma {:induction false} TruncatedAtZero(d: int, r: int, k: nat)
    ensures Truncated(d, r, 0, k) == 1
  {
    if k > 0 { TruncatedAtZero(d, r, k - 1); }
  }

  lemma StepBelow(a: int, b: int, p: int, d: int, r: int)
    requires a <= p && b <= p && 0 <= d && 0 <= r
    ensures d * a + r * b <= p * (d + r)
  {
    MulMono(a, p, d);
    MulMono(b, p, r);
  }

  /** Cutting the binomial series short, anywhere, never overshoots. */
  lemma {:induction false} TruncatedBelowPower(d: int, r: int, n: nat, k: nat)
    requires 0 <= d && 0 <= r && 0 < d + r
    ensures Truncated(d, r, n, k) <= Power(d + r, n)
  {
    if n == 0 {
      TruncatedAtZero(d, r, k);
    } else {
      var p := Power(d + r, n - 1);
      TruncatedStep(d, r, n - 1, k);
      TruncatedBelowPower(d, r, n - 1, k);
      if k > 0 {
        TruncatedBelowPower(d, r, n - 1, k - 1);
        StepBelow(Truncated(d, r, n - 1, k), Truncated(d, r, n - 1, k - 1), p, d, r);
      } else {
        PowerPositive(d + r, n - 1);
        StepBelow(Truncated(d, r, n - 1, 0), 0, p, d, r);
      }
    }
  }

  // ---------- Closed forms of the first terms ----------

  function Choose2(n: nat): (c: int)
    ensures 0 <= c
  {
    if n == 0 then 0 else Choose2(n - 1) + (n - 1)
  }

  function Choose3(n: nat): (c: int)
    ensures 0 <= c
  {
    if n == 0 then 0 else Choose3(n - 1) + Choose2(n - 1)
  }

  lemma FallingFactorialStep(m: int)
    ensures (m + 1) * m == m * (m - 1) + 2 * m
    ensures (m + 1) * m * (m - 1) == m * (m - 1) * (m - 2) + 3 * (m * (m - 1))
  {
  }

  lemma {:induction false} ChooseClosedForm(n: nat)
    ensures 2 * Choose2(n) == n * (n - 1)
    ensures 6 * Choose3(n) == n * (n - 1) * (n - 2)
  {
    if n > 0 {
      ChooseClosedForm(n - 1);
      FallingFactorialStep(n - 1);
    }
  }

  lemma {:induction false} TermZero(d: int, r: int, n: nat)
    ensures Term(d, r, n, 0) == Power(d, n)
  {
    if n > 0 { TermZero(d, r, n - 1); }
  }

  /** One step of Pascal's rule on scaled terms: t = c*y*p, u = e*z*p with y*d = r*z. */
  lemma PascalStep(d: int, r: int, p: int, t: int, u: int, s: int, c: int, e: int, y: int)
    requires t * (s * d) == c * (y * r) * p
    requires u * s == e * y * p
    ensures (d * t + r * u) * (s * d) == (c + e) * (y * r) * (p * d)
  {
    calc {
      (d * t + r * u) * (s * d);
      d * (t * (s * d)) + r * d * (u * s);
      d * (c * (y * r) * p) + r * d * (e * y * p);
      (c + e) * (y * r) * (p * d);
    }
  }

  /** Term k is choose(n, k) * r^k * d^(n-k). */
  lemma {:induction false} TermsClosedForm(d: int, r: int, n: nat)
    ensures Term(d, r, n, 1) * (1 * d) == n * (1 * r) * Power(d, n)
    ensures Term(d, r, n, 2) * (d * d) == Choose2(n) * (r * r) * Power(d, n)
    ensures Term(d, r, n, 3) * (d * d * d) == Choose3(n) * (r * r * r) * Power(d, n)
  {
    if n > 0 {
      var m, p := n - 1, Power(d, n - 1);
      TermsClosedForm(d, r, m);
      TermZero(d, r, m);
      PascalStep(d, r, p, Term(d, r, m, 1), Term(d, r, m, 0), 1, m, 1, 1);
      PascalStep(d, r, p, Term(d, r, m, 2), Term(d, r, m, 1), d, Choose2(m), m, r);
      PascalStep(d, r, p, Term(d, r, m, 3), Term(d, r, m, 2), d * d, Choose3(m), Choose2(m), r * r);
    }
  }

  // ---------- The code's three terms ----------

  lemma QuotientUnique(n: int, d: int, q: int)
    requires 0 < d && q * d <= n < q * d + d
    ensures n / d == q
  {
    DivGreatest(n, d, q);
    DivBounds(n, d);
    if q < n / d { MulMono(q + 1, n / d, d); }
  }

  lemma Halved(a: int, d: int)
    requires d > 0
    ensures (2 * a) / d / 2 == a / d
  {
    var m := (2 * a) / d;
    DivBounds(2 * a, d);
    MulMono(2 * (m / 2), m, d);
    MulMono(m, 2 * (m / 2) + 1, d);
    QuotientUnique(a, d, m / 2);
  }

  lemma DividedBySix(a: int, d: int)
    requires d > 0
    ensures (6 * a) / d / 6 == a / d
  {
    var m := (6 * a) / d;
    DivBounds(6 * a, d);
    MulMono(6 * (m / 6), m, d);
    MulMono(m, 6 * (m / 6) + 5, d);
    QuotientUnique(a, d, m / 6);
  }

  const YEAR: int := SECONDS_PER_YEAR
  const YEAR2: int := YEAR * YEAR
  const YEAR3: int := YEAR * YEAR * YEAR

  lemma SecondTermByCoefficient(sq: int, t: nat)
    ensures sq * t * (t - 1) / YEAR2 / 2 == sq * Choose2(t) / YEAR2
  {
    ChooseClosedForm(t);
    AssociateTerms(sq, t);
    assert sq * t * (t - 1) == 2 * (sq * Choose2(t));
    Halved(sq * Choose2(t), YEAR2);
  }

  lemma ThirdTermByCoefficient(cube: int, t: nat)
    ensures cube * t * (t - 1) * (t - 2) / YEAR3 / 6 == cube * Choose3(t) / YEAR3
  {
    ChooseClosedForm(t);
    AssociateTerms(cube, t);
    assert cube * t * (t - 1) * (t - 2) == 6 * (cube * Choose3(t));
    DividedBySix(cube * Choose3(t), YEAR3);
  }

  /** The doubly truncated terms are single floors of the binomial coefficients. */
  lemma CompoundedInterestByCoefficients(rate: int, t: nat)
    ensures var sq := RayMul(rate, rate);
            CalculateCompoundedInterest(rate, t)
            == RAY + rate * t / YEAR + sq * Choose2(t) / YEAR2 + RayMul(sq, rate) * Choose3(t) / YEAR3
  {
    var sq := RayMul(rate, rate);
    SecondTermByCoefficient(sq, t);
    ThirdTermByCoefficient(RayMul(sq, rate), t);
  }

  // ---------- Their rounding errors ----------

  /** RAY^2 * YEAR^3, the denominator that clears every division in the code. */
  const SCALE: int := RAY * RAY * YEAR3

  /** SCALE times the exact three-term binomial of RAY * (1 + rate/(RAY*YEAR))^t. */
  function ScaledBinomial(rate: int, t: nat): int {
    RAY * SCALE + RAY * RAY * YEAR2 * (rate * t)
    + RAY * YEAR * (rate * rate * Choose2(t)) + rate * rate * rate * Choose3(t)
  }

  /** Twice SCALE times what the roundings of rate^2 and rate^3 can add or take away. */
  function ScaledSlack(rate: int, t: nat): int {
    RAY * RAY * YEAR * Choose2(t) + RAY * RAY * Choose3(t) + RAY * (rate * Choose3(t))
  }

  /** f = floor(v*c/y), where v is within s/(2*w) of e/w. */
  lemma FlooredTerm(v: int, c: nat, y: int, f: int, w: int, e: int, s: int, ec: int, sc: int)
    requires f * y <= v * c < f * y + y && 0 < w
    requires -s <= 2 * (v * w - e) <= s
    requires ec == e * c && sc == s * c
    ensures 2 * ec - sc - 2 * (w * y) < 2 * (w * (f * y)) <= 2 * ec + sc
  {
    MulMono(f * y, v * c, w);
    MulStrict(v * c, f * y + y, w);
    ScaledError(2 * (v * w - e), s, c);
    assert 2 * (v * w - e) * c == 2 * (w * (v * c)) - 2 * (e * c);
  }

  lemma SecondTermError(rate: int, c: nat)
    ensures var f := RayMul(rate, rate) * c / YEAR2;
            2 * (rate * rate * c) - RAY * c - 2 * YEAR2 * RAY < 2 * YEAR2 * RAY * f <= 2 * (rate * rate * c) + RAY * c
  {
    var sq := RayMul(rate, rate);
    DivBounds(sq * c, YEAR2);
    RayMulIsNearest(rate, rate, sq);
    FlooredTerm(sq, c, YEAR2, sq * c / YEAR2, RAY, rate * rate, RAY, rate * rate * c, RAY * c);
  }

  /** Rounding rate^2 and then rate^3, against the exact cube. */
  lemma RateCubedError(rate: nat)
    ensures var cube := RayMul(RayMul(rate, rate), rate);
            var slack := RAY * rate + RAY * RAY;
            -slack <= 2 * (cube * (RAY * RAY) - rate * rate * rate) <= slack
  {
    var sq := RayMul(rate, rate);
    RayMulIsNearest(rate, rate, sq);
    RayMulIsNearest(sq, rate, RayMul(sq, rate));
    ScaledError(2 * (sq * RAY - rate * rate), RAY, rate);
    assert 2 * (sq * RAY - rate * rate) * rate == 2 * RAY * (sq * rate) - 2 * (rate * rate * rate);
  }

  lemma ThirdTermError(rate: nat, c: nat)
    ensures var f := RayMul(RayMul(rate, rate), rate) * c / YEAR3;
            var slack := RAY * (rate * c) + RAY * RAY * c;
            2 * (rate * rate * rate * c) - slack - 2 * SCALE < 2 * SCALE * f <= 2 * (rate * rate * rate * c) + slack
  {
    var cube := RayMul(RayMul(rate, rate), rate);
    DivBounds(cube * c, YEAR3);
    RateCubedError(rate);
    FlooredTerm(cube, c, YEAR3, cube * c / YEAR3, RAY * RAY, rate * rate * rate, RAY * rate + RAY * RAY,
                rate * rate * rate * c, RAY * (rate * c) + RAY * RAY * c);
  }

  /** Clearing denominators: a1, a2, a3 are the exact products, b2, b3, b3r carry the slack. */
  lemma SumOfTerms(f1: int, f2: int, f3: int, a1: int, a2: int, a3: int, b2: int, b3: int, b3r: int)
    requires f1 * YEAR <= a1 < f1 * YEAR + YEAR
    requires 2 * a2 - RAY * b2 - 2 * YEAR2 * RAY < 2 * YEAR2 * RAY * f2 <= 2 * a2 + RAY * b2
    requires var slack := RAY * b3r + RAY * RAY * b3;
             2 * a3 - slack - 2 * SCALE < 2 * SCALE * f3 <= 2 * a3 + slack
    ensures var exact := RAY * SCALE + RAY * RAY * YEAR2 * a1 + RAY * YEAR * a2 + a3;
            var slack := RAY * RAY * YEAR * b2 + RAY * RAY * b3 + RAY * b3r;
            2 * exact - slack - 6 * SCALE < 2 * SCALE * (RAY + f1 + f2 + f3) <= 2 * exact + slack
  {
  }

  /** The multiplier exceeds the three-term binomial by at most the slack;
      three floors and the slack are all it can lose. */
  lemma CompoundedInterestNearBinomial(rate: nat, t: nat)
    ensures var c := CalculateCompoundedInterest(rate, t);
            2 * ScaledBinomial(rate, t) - ScaledSlack(rate, t) - 6 * SCALE
            < 2 * SCALE * c
            <= 2 * ScaledBinomial(rate, t) + ScaledSlack(rate, t)
  {
    CompoundedInterestByCoefficients(rate, t);
    var sq := RayMul(rate, rate);
    var c2, c3 := Choose2(t), Choose3(t);
    DivBounds(rate * t, YEAR);
    SecondTermError(rate, c2);
    ThirdTermError(rate, c3);
    SumOfTerms(rate * t / YEAR, sq * c2 / YEAR2, RayMul(sq, rate) * c3 / YEAR3,
               rate * t, rate * rate * c2, rate * rate * rate * c3, c2, c3, rate * c3);
  }

  lemma FallingBelowPowers(t: nat, y: nat)
    requires 1 <= t <= y
    ensures t * (t - 1) <= y * y && t * (t - 1) * (t - 2) <= y * y * y
  {
    ProductMono(t, t - 1, y, y);
    if t >= 2 {
      ProductMono(t * (t - 1), t - 2, y * y, y);
    } else {
      ProductMono(y, y, y, y);
      ProductMono(0, 0, y * y, y);
    }
  }

  lemma ChooseWithinYear(t: nat)
    requires t <= YEAR
    ensures 2 * Choose2(t) <= YEAR2 && 6 * Choose3(t) <= YEAR3
  {
    if t > 0 {
      assert 2 * Choose2(t) == t * (t - 1) && 6 * Choose3(t) == t * (t - 1) * (t - 2) by { ChooseClosedForm(t); }
      assert t * (t - 1) <= YEAR2 && t * (t - 1) * (t - 2) <= YEAR3 by { FallingBelowPowers(t, YEAR); }
    }
  }

  /** Within one year and up to a rate of 800%, the slack is worth at most one unit. */
  lemma SlackWithinYear(rate: nat, t: nat)
    requires rate <= 8 * RAY && t <= YEAR
    ensures ScaledSlack(rate, t) <= 2 * SCALE
  {
    ChooseWithinYear(t);
    MulMono(rate, 8 * RAY, Choose3(t));
  }

  // ---------- Against the true power ----------

  lemma TermInCubes(x: int, k: int, a: int, b: int, p: int, d: int, whole: int, product: int)
    requires x * k == a * b * p
    requires whole == k * d && product == d * (b * a)
    ensures x * whole == p * product
  {
    calc {
      x * (k * d);
      (x * k) * d;
      (a * b * p) * d;
      p * (d * (b * a));
    }
  }

  lemma FactorOut(p: int, t1: int, t2: int, t3: int, k: int, a0: int, a1: int, a2: int, a3: int)
    requires p * k == p * a0 && t1 * k == p * a1 && t2 * k == p * a2 && t3 * k == p * a3
    ensures (p + t1 + t2 + t3) * k == p * (a0 + a1 + a2 + a3)
  {
  }

  lemma TruncatedAtThree(d: int, r: int, t: nat)
    ensures Truncated(d, r, t, 3) == Term(d, r, t, 0) + Term(d, r, t, 1) + Term(d, r, t, 2) + Term(d, r, t, 3)
  {
    assert Truncated(d, r, t, 2) == Term(d, r, t, 2) + Truncated(d, r, t, 1);
  }

  lemma ExpandTruncation(d: int, r: int, t: nat)
    ensures Truncated(d, r, t, 3) * (d * d * d)
            == Power(d, t) * (d * d * d + d * d * (r * t) + d * (r * r * Choose2(t)) + r * r * r * Choose3(t))
  {
    var p, cube := Power(d, t), d * d * d;
    var a1, a2, a3 := d * d * (r * t), d * (r * r * Choose2(t)), r * r * r * Choose3(t);
    var t1, t2, t3 := Term(d, r, t, 1), Term(d, r, t, 2), Term(d, r, t, 3);
    assert t1 * cube == p * a1 && t2 * cube == p * a2 && t3 * cube == p * a3 by {
      TermsClosedForm(d, r, t);
      TermInCubes(t1, 1 * d, t, 1 * r, p, d * d, cube, a1);
      TermInCubes(t2, d * d, Choose2(t), r * r, p, d, cube, a2);
      TermInCubes(t3, cube, Choose3(t), r * r * r, p, 1, cube, a3);
    }
    assert Truncated(d, r, t, 3) == p + t1 + t2 + t3 by {
      TermZero(d, r, t);
      TruncatedAtThree(d, r, t);
    }
    FactorOut(p, t1, t2, t3, cube, cube, a1, a2, a3);
  }

  lemma ScaledBinomialIsTruncation(rate: nat, t: nat)
    ensures Truncated(RAY * YEAR, rate, t, 3) * (RAY * SCALE) == Power(RAY * YEAR, t) * ScaledBinomial(rate, t)
  {
    ExpandTruncation(RAY * YEAR, rate, t);
  }

  lemma Unscale(scale: int, x: int, y: int, b: int, p: int, ray: int, truncated: int)
    requires 0 < scale && 0 < p
    requires scale * x <= b < scale * y
    requires truncated * (ray * scale) == p * b
    ensures x * p <= ray * truncated < y * p
  {
    MulMono(scale * x, b, p);
    MulStrict(b, scale * y, p);
    assert scale * x * p == x * p * scale && scale * y * p == y * p * scale;
    assert truncated * (ray * scale) == ray * truncated * scale;
    if ray * truncated < x * p { MulStrict(ray * truncated, x * p, scale); }
    if y * p <= ray * truncated { MulMono(y * p, ray * truncated, scale); }
  }

  /** From the scaled binomial b to the truncated series: truncated/p = b/(ray*scale). */
  lemma TimesPower(lo: int, hi: int, b: int, p: int, k: int, truncated: int)
    requires 0 < p && lo <= 2 * b < hi
    requires truncated * k == p * b
    ensures lo * p <= 2 * (truncated * k) < hi * p
  {
    MulMono(lo, 2 * b, p);
    MulStrict(2 * b, hi, p);
    assert 2 * b * p == 2 * (p * b);
  }

  /** The multiplier c, short of the slack and with it, against RAY times the truncated series, all times 2 * SCALE. */
  ghost predicate NearTruncation(c: int, slack: int, p: int, truncated: int) {
    (2 * SCALE * c - slack) * p <= 2 * (truncated * (RAY * SCALE)) < (2 * SCALE * c + slack + 6 * SCALE) * p
  }

  lemma CompoundedInterestNearTruncation(rate: nat, t: nat)
    ensures NearTruncation(CalculateCompoundedInterest(rate, t), ScaledSlack(rate, t), Power(RAY * YEAR, t),
                           Truncated(RAY * YEAR, rate, t, 3))
  {
    var c, slack := CalculateCompoundedInterest(rate, t), ScaledSlack(rate, t);
    CompoundedInterestNearBinomial(rate, t);
    PowerPositive(RAY * YEAR, t);
    ScaledBinomialIsTruncation(rate, t);
    TimesPower(2 * SCALE * c - slack, 2 * SCALE * c + slack + 6 * SCALE, ScaledBinomial(rate, t), Power(RAY * YEAR, t),
               RAY * SCALE, Truncated(RAY * YEAR, rate, t, 3));
  }

  lemma BelowPower(x: int, truncated: int, power: int, k: int)
    requires x <= 2 * (truncated * k) && truncated <= power && 0 <= k
    ensures x <= 2 * (power * k)
  {
    MulMono(truncated, power, k);
  }

  /** At every non-negative rate and every time: short of the slack, the multiplier never exceeds true compounding
      RAY * (1 + rate/(RAY*YEAR))^t, nor its three-term truncation; and with the slack and three units more it exceeds
      the latter. */
  lemma CompoundedInterestAgainstPower(rate: nat, t: nat)
    ensures var d, c, slack := RAY * YEAR, CalculateCompoundedInterest(rate, t), ScaledSlack(rate, t);
            && NearTruncation(c, slack, Power(d, t), Truncated(d, rate, t, 3))
            && (2 * SCALE * c - slack) * Power(d, t) <= 2 * (Power(d + rate, t) * (RAY * SCALE))
  {
    var d, c, slack := RAY * YEAR, CalculateCompoundedInterest(rate, t), ScaledSlack(rate, t);
    CompoundedInterestNearTruncation(rate, t);
    TruncatedBelowPower(d, rate, t, 3);
    BelowPower((2 * SCALE * c - slack) * Power(d, t), Truncated(d, rate, t, 3), Power(d + rate, t), RAY * SCALE);
  }

  lemma CompoundedInterestUnscaled(rate: nat, t: nat)
    requires rate <= 8 * RAY && t <= YEAR
    ensures SCALE * (CalculateCompoundedInterest(rate, t) - 1) <= ScaledBinomial(rate, t)
                                                               < SCALE * (CalculateCompoundedInterest(rate, t) + 4)
  {
    CompoundedInterestNearBinomial(rate, t);
    SlackWithinYear(rate, t);
    WithinUnits(SCALE, CalculateCompoundedInterest(rate, t), ScaledBinomial(rate, t), ScaledSlack(rate, t));
  }

  lemma WithinUnits(scale: int, c: int, b: int, slack: int)
    requires 2 * b - slack - 6 * scale < 2 * scale * c <= 2 * b + slack
    requires slack <= 2 * scale
    ensures scale * (c - 1) <= b < scale * (c + 4)
  {
    assert scale * (c - 1) == scale * c - scale && scale * (c + 4) == scale * c + 4 * scale;
  }

  /** Within a year and at rates up to 800%, the multiplier c brackets true compounding from below:
      c - 1 never exceeds RAY * (1 + rate/(RAY*YEAR))^t, nor its three-term truncation, and c + 4 exceeds the latter. */
  lemma CompoundedInterestSandwich(rate: nat, t: nat)
    requires rate <= 8 * RAY && t <= YEAR
    ensures var d := RAY * YEAR;
            var c := CalculateCompoundedInterest(rate, t);
            && (c - 1) * Power(d, t) <= RAY * Truncated(d, rate, t, 3) < (c + 4) * Power(d, t)
            && (c - 1) * Power(d, t) <= RAY * Power(d + rate, t)
  {
    var d, c := RAY * YEAR, CalculateCompoundedInterest(rate, t);
    CompoundedInterestUnscaled(rate, t);
    PowerPositive(d, t);
    ScaledBinomialIsTruncation(rate, t);
    Unscale(SCALE, c - 1, c + 4, ScaledBinomial(rate, t), Power(d, t), RAY, Truncated(d, rate, t, 3));
    TruncatedBelowPower(d, rate, t, 3);
  }
}
