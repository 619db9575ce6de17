/**
 * The parts of JavaScript's `Math` and `Number` that the engine uses, over
 * exact reals: `Math.min`, `Math.max`, `Math.ceil`, `Math.pow` with a whole
 * exponent, and `toFixed(2)` read back as a number. `Math.log` and
 * `Math.pow` with a fractional exponent have no closed form here; callers
 * pass them in, and `IsLogarithm` names the facts a logarithm must satisfy.
 */
module RealMath {

  function Min(a: real, b: real): (m: real)
    ensures m <= a && m <= b
    ensures m == a || m == b
  {
    if a <= b then a else b
  }

  function Max(a: real, b: real): (m: real)
    ensures m >= a && m >= b
    ensures m == a || m == b
  {
    if a >= b then a else b
  }

  /** `Math.pow(x, n)` for a whole exponent. */
  function Pow(x: real, n: nat): (p: real)
    ensures x >= 1.0 ==> p >= 1.0
    ensures x > 1.0 && n >= 1 ==> p > 1.0
    ensures x > 0.0 ==> p > 0.0
  {
    if n == 0 then 1.0 else x * Pow(x, n - 1)
  }

  /** `Math.pow(x, n)` for a positive base and any integer exponent. */
  function IntPow(x: real, n: int): (p: real)
    requires x > 0.0
    ensures p > 0.0
    ensures x > 1.0 ==> (p == 1.0 <==> n == 0)
  {
    if n >= 0 then Pow(x, n) else 1.0 / Pow(x, -n)
  }

  /** A larger whole exponent gives a strictly larger power of a base above one. */
  lemma {:induction false} PowStrictlyIncreasing(x: real, j: nat, k: nat)
    requires x > 1.0 && j < k
    ensures Pow(x, j) < Pow(x, k)
  {
    if j + 1 < k {
      PowStrictlyIncreasing(x, j, k - 1);
    }
    MulGrows(x, Pow(x, k - 1), Pow(x, k));
  }

  /** Multiplying a positive number by a factor above one makes it larger. */
  lemma MulGrows(x: real, q: real, p: real)
    requires x > 1.0 && q > 0.0 && p == x * q
    ensures p > q
  {
    assert p - q == (x - 1.0) * q;
  }

  lemma MulPositive(a: real, b: real)
    requires a > 0.0 && b > 0.0
    ensures a * b > 0.0
  {
  }

  lemma MulMonotone(a: real, b: real, c: real)
    requires a >= 0.0 && b >= c
    ensures a * b >= a * c
  {
    assert a * b - a * c == a * (b - c);
  }

  /** Bernoulli's inequality: (1 + x)^n >= 1 + n x for x >= 0. */
  lemma {:induction false} Bernoulli(x: real, n: nat)
    requires x >= 0.0
    ensures Pow(1.0 + x, n) >= 1.0 + n as real * x
  {
    if n > 0 {
      Bernoulli(x, n - 1);
      var q, m := Pow(1.0 + x, n - 1), (n - 1) as real;
      assert Pow(1.0 + x, n) == q + x * q;
      MulMonotone(x, q, 1.0 + m * x);
      MulMonotone(x, m * x, 0.0);
      assert x * (1.0 + m * x) == x + x * (m * x);
      assert n as real * x == m * x + x;
      assert q >= 1.0 + m * x;
      assert x * q >= x + x * (m * x);
      assert x * (m * x) >= 0.0;
      assert q + x * q >= 1.0 + m * x + x;
    }
  }

  /** The growth of a power over one: (1 + r)^n - 1 <= n r (1 + r)^n for r >= 0. */
  lemma {:induction false} PowGrowthBound(r: real, n: nat)
    requires r >= 0.0
    ensures Pow(1.0 + r, n) - 1.0 <= n as real * r * Pow(1.0 + r, n)
  {
    if n > 0 {
      PowGrowthBound(r, n - 1);
      GrowthStep(r, Pow(1.0 + r, n - 1), Pow(1.0 + r, n), (n - 1) as real, n as real);
    }
  }

  /** One step of `PowGrowthBound`, from q = (1 + r)^m to a = (1 + r)^(m + 1). */
  lemma GrowthStep(r: real, q: real, a: real, m: real, n: real)
    requires r >= 0.0 && q >= 1.0 && m >= 0.0 && n == m + 1.0
    requires a == (1.0 + r) * q && q - 1.0 <= m * r * q
    ensures a - 1.0 <= n * r * a
  {
    var rq := r * q;
    assert a == q + rq;
    MulMonotone(r, q, 0.0);
    assert n * rq == m * rq + rq;
    assert m * r * q == m * rq;
    assert a - 1.0 <= n * rq;
    MulMonotone(n * r, a, q);
    assert n * r * q == n * rq;
  }

  /** `Math.ceil`: the least integer not below `x`. */
  function Ceil(x: real): (c: int)
    ensures c as real >= x
    ensures (c - 1) as real < x
  {
    if x.Floor as real == x then x.Floor else x.Floor + 1
  }

  /** The integer nearest to `m`, a tie going up. */
  function RoundHalfUp(m: real): (n: int)
    ensures n as real - 0.5 <= m < n as real + 0.5
  {
    (m + 0.5).Floor
  }

  /**
   * `Number(x.toFixed(2))`: the nearest multiple of 0.01, a tie going away
   * from zero (the digits of the magnitude are rounded, then the sign is put back).
   */
  function ToFixed2(x: real): (y: real)
    ensures (y * 100.0).Floor as real == y * 100.0
    ensures x - 0.005 <= y <= x + 0.005
    ensures x >= 0.0 ==> y >= 0.0
  {
    var n := RoundHalfUp((if x >= 0.0 then x else -x) * 100.0);
    var hundredths := if x >= 0.0 then n else -n;
    hundredths as real / 100.0
  }

  /** Rounding to hundredths never reverses the order of two numbers. */
  lemma ToFixed2Monotone(x: real, y: real)
    requires x <= y
    ensures ToFixed2(x) <= ToFixed2(y)
  {
    if 0.0 <= x {
      assert RoundHalfUp(x * 100.0) <= RoundHalfUp(y * 100.0);
    } else if y < 0.0 {
      assert RoundHalfUp(-y * 100.0) <= RoundHalfUp(-x * 100.0);
    }
  }

  /** A number of hundredths in [0, 500] stays in [0, 500] when rounded. */
  lemma ToFixed2StaysInRange(x: real)
    requires 0.0 <= x <= 500.0
    ensures 0.0 <= ToFixed2(x) <= 500.0
  {
    assert RoundHalfUp(x * 100.0) <= 50000;
  }

  /**
   * What the engine needs of `Math.log`: it is strictly increasing on the
   * positive reals and turns a whole power into a product. Any base
   * satisfies this, and the tenure solve only uses a ratio of two logarithms.
   */
  ghost predicate IsLogarithm(ln: real -> real)
  {
    && (forall x: real, y: real :: 0.0 < x < y ==> ln(x) < ln(y))
    && (forall x: real, k: nat :: 0.0 < x ==> ln(Pow(x, k)) == k as real * ln(x))
  }

  /** A logarithm is positive exactly above one. */
  lemma LogPositiveAboveOne(ln: real -> real, x: real)
    requires IsLogarithm(ln) && x > 1.0
    ensures ln(x) > 0.0
  {
    assert ln(Pow(x, 0)) == 0.0 * ln(x);
    assert ln(1.0) < ln(x);
  }

  /** For positive arguments, comparing logarithms compares the arguments. */
  lemma LogOrderIff(ln: real -> real, x: real, y: real)
    requires IsLogarithm(ln) && x > 0.0 && y > 0.0
    ensures ln(x) < ln(y) <==> x < y
  {
    if y < x {
      assert ln(y) < ln(x);
    }
  }
}
