/** Integer fixed-point arithmetic with half-up rounding (internal/common/math/wadray.go).
    Go's big.Int.Div is Euclidean, as Dafny's `/` is, so the formulas carry over for every sign. */
module WadRay {
  /** Token amounts and percentages: 10^18. */
  const WAD: int := 1_000_000_000_000_000_000
  /** Interest indices and rates: 10^27. */
  const RAY: int := 1_000_000_000_000_000_000_000_000_000
  /** RAY / WAD: 10^9. */
  const WAD_RAY_RATIO: int := 1_000_000_000

  /** (n + d/2) / d, the rounding shared by every operation below. */
  function RoundedDiv(n: int, d: int): int
    requires d != 0
  {
    (n + d / 2) / d
  }

  function RayMul(a: int, b: int): int {
    RoundedDiv(a * b, RAY)
  }

  /** The source panics on a zero divisor. */
  function RayDiv(a: int, b: int): int
    requires b != 0
  {
    RoundedDiv(a * RAY, b)
  }

  function WadToRay(a: int): int {
    a * WAD_RAY_RATIO
  }

  function RayToWad(a: int): int {
    RoundedDiv(a, WAD_RAY_RATIO)
  }

  // ---------- Multiplication facts ----------

  lemma MulMono(x: int, y: int, z: int)
    requires x <= y && 0 <= z
    ensures x * z <= y * z
  {
  }

  lemma MulStrict(x: int, y: int, z: int)
    requires x < y && 0 < z
    ensures x * z < y * z
  {
  }

  lemma MulCancel(x: int, y: int, z: int)
    requires x * z < y * z && 0 < z
    ensures x < y
  {
    if y <= x { MulMono(y, x, z); }
  }

  lemma Distribute(a: int, x: int, y: int)
    ensures a * (x + y) == a * x + a * y
  {
  }

  lemma DivBounds(n: int, d: int)
    requires 0 < d
    ensures n / d * d <= n < n / d * d + d
  {
  }

  /** Floor division is the greatest multiple that fits. */
  lemma DivGreatest(n: int, d: int, q: int)
    requires 0 < d && q * d <= n
    ensures q <= n / d
  {
    DivBounds(n, d);
    if n / d + 1 <= q {
      MulMono(n / d + 1, q, d);
    }
  }

  lemma DivMono(n: int, m: int, d: int)
    requires 0 < d && n <= m
    ensures n / d <= m / d
  {
    DivBounds(n, d);
    DivGreatest(m, d, n / d);
  }

  // ---------- Rounding ----------

  /** At most one integer is nearest, with ties going up. */
  lemma NearestUnique(n: int, d: int, q: int, r: int)
    requires 0 < d
    requires 2 * n - d < 2 * (q * d) <= 2 * n + d
    requires 2 * n - d < 2 * (r * d) <= 2 * n + d
    ensures q == r
  {
    if q < r {
      MulMono(q, r - 1, d);
    } else if r < q {
      MulMono(r, q - 1, d);
    }
  }

  /** RoundedDiv is the nearest integer to n/d with ties going up, for every divisor d > 0, even or odd;
      and nothing else is. */
  lemma RoundedDivIsNearest(n: int, d: int, q: int)
    requires 0 < d
    ensures q == RoundedDiv(n, d) <==> 2 * n - d < 2 * (q * d) <= 2 * n + d
  {
    var r := RoundedDiv(n, d);
    DivBounds(n + d / 2, d);
    assert 2 * n - d < 2 * (r * d) <= 2 * n + d;
    if 2 * n - d < 2 * (q * d) <= 2 * n + d {
      NearestUnique(n, d, q, r);
    }
  }

  lemma NearestAtMost(n: int, d: int, q: int, k: int)
    requires 0 < d && 2 * n - d < 2 * (q * d) <= 2 * n + d
    ensures q <= k <==> 2 * n < (2 * k + 1) * d
  {
    if q <= k {
      MulMono(q, k, d);
    } else {
      MulMono(k, q - 1, d);
    }
    assert (2 * k + 1) * d == 2 * (k * d) + d;
  }

  /** Rounding stays on the same side of every threshold: the quotient is at most k
      exactly when n/d has not reached k + 1/2. */
  lemma RoundedDivAtMost(n: int, d: int, k: int)
    requires 0 < d
    ensures RoundedDiv(n, d) <= k <==> 2 * n < (2 * k + 1) * d
  {
    RoundedDivIsNearest(n, d, RoundedDiv(n, d));
    NearestAtMost(n, d, RoundedDiv(n, d), k);
  }

  /** A larger fraction below a threshold puts the smaller one below it. */
  lemma FractionBelow(n1: int, d1: int, n2: int, d2: int, k: int)
    requires 0 < d1 && 0 < d2
    requires n1 * d2 <= n2 * d1
    requires 2 * n2 < k * d2
    ensures 2 * n1 < k * d1
  {
    calc {
      2 * n1 * d2;
      2 * (n1 * d2);
    <=
      2 * (n2 * d1);
      2 * n2 * d1;
    <  { MulStrict(2 * n2, k * d2, d1); }
      k * d2 * d1;
      (k * d1) * d2;
    }
    MulCancel(2 * n1, k * d1, d2);
  }

  /** If n1/d1 <= n2/d2 as fractions, then so are their roundings. */
  lemma RoundedDivMono(n1: int, d1: int, n2: int, d2: int)
    requires 0 < d1 && 0 < d2
    requires n1 * d2 <= n2 * d1
    ensures RoundedDiv(n1, d1) <= RoundedDiv(n2, d2)
  {
    var k := RoundedDiv(n2, d2);
    assert 2 * n2 < (2 * k + 1) * d2 by { RoundedDivAtMost(n2, d2, k); }
    assert 2 * n1 < (2 * k + 1) * d1 by { FractionBelow(n1, d1, n2, d2, 2 * k + 1); }
    RoundedDivAtMost(n1, d1, k);
  }
}
