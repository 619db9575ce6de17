/**
 * `calculateRateForTargetEMI` (utils.ts): find the annual rate at which a
 * loan's level payment meets a target, by exactly 40 halvings of the rate
 * bracket [0, 500], then round the lower end to two decimals.
 * `Bisect` is the search as a function of the bracket and of the test made
 * at each midpoint; the method is the source's loop, proved to end where
 * `Bisect` does.
 */
module RateSolver {
  import opened LoanTypes
  import opened RealMath
  import opened Amortization
  import opened Emi

  /** The number of halvings the solver performs. */
  const Iterations: nat := 40

  /** The upper end of the starting bracket, an annual percentage rate. */
  const MaxRate: real := 500.0

  /** A bracket of annual rates, `low` below `high`. */
  datatype Bracket = Bracket(low: real, high: real)

  /**
   * Whether `emi > targetEmi` holds for the level payment at a monthly rate.
   * Over a tenure of 0 the formula divides `principal * r` by zero: an
   * infinity of the principal's sign, or not-a-number for a zero principal,
   * so the comparison holds exactly when the principal is positive. At a
   * zero rate the formula is 0/0 and the comparison fails; the solver only
   * tries positive rates, and this model answers `false` below zero as well.
   */
  predicate EmiExceeds(principal: real, monthlyRate: real, tenureMonths: int, targetEmi: real)
  {
    if monthlyRate <= 0.0 then false
    else if tenureMonths == 0 then principal > 0.0
    else AmortizingPayment(principal, monthlyRate, tenureMonths) > targetEmi
  }

  /** The test the solver makes at an annual rate `mid`. */
  function Test(principal: real, tenureMonths: int, targetEmi: real): real -> bool
  {
    mid => EmiExceeds(principal, MonthlyRate(mid), tenureMonths, targetEmi)
  }

  /** A higher target is exceeded only where a lower one is. */
  lemma EmiExceedsAntitone(principal: real, monthlyRate: real, tenureMonths: int, target1: real, target2: real)
    requires target1 <= target2
    ensures EmiExceeds(principal, monthlyRate, tenureMonths, target2) ==> EmiExceeds(principal, monthlyRate, tenureMonths, target1)
  {
  }

  /**
   * The bracket after `iterations` halvings of [low, high]: the midpoint
   * becomes the new `high` when `exceeds` holds there and the new `low`
   * otherwise. The result lies within [low, high], and each end either is
   * the original one or was moved there by the test (a lower end where the
   * test fails, an upper end where it holds).
   */
  function Bisect(exceeds: real -> bool, low: real, high: real, iterations: nat): (b: Bracket)
    requires low < high
    ensures low <= b.low < b.high <= high
    ensures b.low == low || !exceeds(b.low)
    ensures b.high == high || exceeds(b.high)
    decreases iterations
  {
    if iterations == 0 then Bracket(low, high)
    else
      var mid := (low + high) / 2.0;
      if exceeds(mid) then Bisect(exceeds, low, mid, iterations - 1)
      else Bisect(exceeds, mid, high, iterations - 1)
  }

  /** Each halving halves the width: after `iterations` of them it is `2^iterations` times narrower. */
  lemma {:induction false} BisectWidth(exceeds: real -> bool, low: real, high: real, iterations: nat)
    requires low < high
    ensures var b := Bisect(exceeds, low, high, iterations);
      b.high - b.low == (high - low) / Pow(2.0, iterations)
    decreases iterations
  {
    if iterations > 0 {
      var mid := (low + high) / 2.0;
      var low', high' := if exceeds(mid) then low else mid, if exceeds(mid) then mid else high;
      BisectWidth(exceeds, low', high', iterations - 1);
      var b := Bisect(exceeds, low', high', iterations - 1);
      assert Bisect(exceeds, low, high, iterations) == b;
      assert high' - low' == (high - low) / 2.0;
      HalvedWidth(high - low, high' - low', b.high - b.low, Pow(2.0, iterations - 1), Pow(2.0, iterations));
    }
  }

  /** Halving a width `w` and then narrowing it `q` times is narrowing it `2 q` times. */
  lemma HalvedWidth(w: real, half: real, narrowed: real, q: real, q2: real)
    requires q > 0.0 && q2 == 2.0 * q && half == w / 2.0 && narrowed == half / q
    ensures narrowed == w / q2
  {
  }

  /**
   * `calculateRateForTargetEMI(principal, tenureMonths, targetEMI)`: the
   * lower end of the bracket after 40 halvings of [0, 500], rounded to two
   * decimals.
   */
  function RateForTargetEmi(principal: real, tenureMonths: int, targetEmi: real): (rate: real)
    ensures 0.0 <= rate <= MaxRate
    ensures (rate * 100.0).Floor as real == rate * 100.0
  {
    var b := Bisect(Test(principal, tenureMonths, targetEmi), 0.0, MaxRate, Iterations);
    ToFixed2StaysInRange(b.low);
    ToFixed2(b.low)
  }

  /**
   * The source's loop: `iterations` halvings of [low, high], the comparison
   * at each midpoint being `exceeds`.
   */
  method BisectLoop(exceeds: real -> bool, low0: real, high0: real, iterations0: nat) returns (b: Bracket)
    requires low0 < high0
    ensures b == Bisect(exceeds, low0, high0, iterations0)
  {
    var low, high, iterations := low0, high0, iterations0;
    while iterations > 0
      invariant low < high
      invariant Bisect(exceeds, low, high, iterations) == Bisect(exceeds, low0, high0, iterations0)
      decreases iterations
    {
      var mid := (low + high) / 2.0;
      if exceeds(mid) {
        high := mid;
      } else {
        low := mid;
      }
      iterations := iterations - 1;
    }
    b := Bracket(low, high);
  }

  /** `calculateRateForTargetEMI`: 40 halvings of [0, 500], then the rounded lower end. */
  method CalculateRateForTargetEmi(principal: real, tenureMonths: int, targetEmi: real) returns (rate: real)
    ensures rate == RateForTargetEmi(principal, tenureMonths, targetEmi)
  {
    var b := BisectLoop(Test(principal, tenureMonths, targetEmi), 0.0, 500.0, 40);
    rate := ToFixed2(b.low);
  }

  /**
   * Bisection is monotone in the test: with a test that holds wherever a
   * second one does, the search never ends in a higher bracket. At each
   * midpoint the two searches move together, or the first moves into the
   * lower half while the second moves into the upper half.
   */
  lemma {:induction false} BisectMonotone(exceeds1: real -> bool, exceeds2: real -> bool,
                                          low: real, high: real, iterations: nat)
    requires low < high
    requires forall x :: exceeds2(x) ==> exceeds1(x)
    ensures Bisect(exceeds1, low, high, iterations).low <= Bisect(exceeds2, low, high, iterations).low
    ensures Bisect(exceeds1, low, high, iterations).high <= Bisect(exceeds2, low, high, iterations).high
    decreases iterations
  {
    if iterations > 0 {
      var mid := (low + high) / 2.0;
      if exceeds2(mid) {
        BisectMonotone(exceeds1, exceeds2, low, mid, iterations - 1);
      } else if !exceeds1(mid) {
        BisectMonotone(exceeds1, exceeds2, mid, high, iterations - 1);
      } else {
        assert Bisect(exceeds1, low, high, iterations).high <= mid;
        assert mid <= Bisect(exceeds2, low, high, iterations).low;
      }
    }
  }

  /** A higher target EMI never yields a lower solved rate. */
  lemma RateForTargetEmiMonotone(principal: real, tenureMonths: int, target1: real, target2: real)
    requires target1 <= target2
    ensures RateForTargetEmi(principal, tenureMonths, target1) <= RateForTargetEmi(principal, tenureMonths, target2)
  {
    var exceeds1, exceeds2 := Test(principal, tenureMonths, target1), Test(principal, tenureMonths, target2);
    forall x: real
      ensures exceeds2(x) ==> exceeds1(x)
    {
      EmiExceedsAntitone(principal, MonthlyRate(x), tenureMonths, target1, target2);
    }
    BisectMonotone(exceeds1, exceeds2, 0.0, MaxRate, Iterations);
    ToFixed2Monotone(Bisect(exceeds1, 0.0, MaxRate, Iterations).low, Bisect(exceeds2, 0.0, MaxRate, Iterations).low);
  }
}
