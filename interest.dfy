/**
 * `calculateInterest` (utils.ts): the total interest on a principal over a
 * tenure, grown simply, compounded yearly, or charged on a reducing balance
 * by delegating to the EMI plan. The lemmas compare the three: a reducing
 * balance never costs more than simple interest, and yearly compounding
 * over whole years never costs less.
 */
module Interest {
  import opened LoanTypes
  import opened RealMath
  import opened Amortization
  import opened Emi

  /**
   * What the engine needs of `Math.pow` with a real exponent: at a positive
   * base and a whole, non-negative exponent it is the repeated product.
   */
  ghost predicate AgreesOnWholePowers(pow: (real, real) -> real)
  {
    forall base: real, y: real :: 0.0 < base && 0.0 <= y && y.Floor as real == y ==> pow(base, y) == Pow(base, y.Floor)
  }

  /** The record of a successful interest calculation: totals, tenure and breakdown only. */
  function InterestResult(principal: real, tenureMonths: int, totalAmount: real, totalInterest: real): CalculationResult
  {
    CalculationResult(totalAmount, totalInterest, None, principal, Some(tenureMonths), None,
                      Breakdown(principal, totalInterest), None)
  }

  /**
   * `calculateInterest(principal, rate, tenureMonths, type)`: one of the
   * three branches below. SIMPLE and COMPOUND check nothing and always
   * succeed, with neither a monthly payment nor a schedule.
   */
  function CalculateInterest(principal: real, rate: real, tenureMonths: int, kind: InterestType,
                             pow: (real, real) -> real): (res: CalculationResult)
    ensures kind != Reducing ==> res.error.None? && res.monthlyPayment.None? && res.schedule.None?
    ensures kind == Simple ==> res == SimpleInterest(principal, rate, tenureMonths)
    ensures kind == Compound ==> res == CompoundInterest(principal, rate, tenureMonths, pow)
    ensures kind == Reducing ==> res == ReducingInterest(principal, rate, tenureMonths)
  {
    match kind
    case Simple => SimpleInterest(principal, rate, tenureMonths)
    case Compound => CompoundInterest(principal, rate, tenureMonths, pow)
    case Reducing => ReducingInterest(principal, rate, tenureMonths)
  }

  /**
   * The SIMPLE branch: `rate` percent of the principal per year, over
   * `tenureMonths / 12` years, on top of the principal.
   */
  function SimpleInterest(principal: real, rate: real, tenureMonths: int): (res: CalculationResult)
    ensures res == InterestResult(principal, tenureMonths, res.totalAmount, res.totalInterest)
    ensures res.totalInterest == principal * rate * tenureMonths as real / 1200.0
    ensures res.totalAmount == principal + res.totalInterest
  {
    var tenureYears := tenureMonths as real / 12.0;
    var totalInterest := (principal * rate * tenureYears) / 100.0;
    SimpleInterestPerMonth(principal * rate, tenureMonths as real, tenureYears, totalInterest);
    InterestResult(principal, tenureMonths, principal + totalInterest, totalInterest)
  }

  /**
   * The COMPOUND branch: the principal grown by `1 + rate / 100` per year,
   * over `tenureMonths / 12` years, through the real-exponent `pow`.
   */
  function CompoundInterest(principal: real, rate: real, tenureMonths: int, pow: (real, real) -> real): (res: CalculationResult)
    ensures res == InterestResult(principal, tenureMonths, res.totalAmount, res.totalInterest)
    ensures res.totalAmount == principal * pow(1.0 + rate / 100.0, tenureMonths as real / 12.0)
    ensures res.totalInterest == res.totalAmount - principal
  {
    var tenureYears := tenureMonths as real / 12.0;
    var totalAmount := principal * pow(1.0 + rate / 100.0, tenureYears);
    InterestResult(principal, tenureMonths, totalAmount, totalAmount - principal)
  }

  /**
   * The REDUCING branch: the EMI plan's error record unchanged when it is
   * rejected, and otherwise only its totals, without its payment or table.
   */
  function ReducingInterest(principal: real, rate: real, tenureMonths: int): (res: CalculationResult)
    ensures var plan := CalculateEmi(principal, rate, tenureMonths);
      && res.error == plan.error
      && (plan.error.Some? ==> res == plan)
      && (plan.error.None? ==> res == InterestResult(principal, tenureMonths, plan.totalAmount, plan.totalInterest))
  {
    var plan := CalculateEmi(principal, rate, tenureMonths);
    if plan.error.Some? then plan
    else InterestResult(principal, tenureMonths, plan.totalAmount, plan.totalInterest)
  }

  /** `a (t / 12) / 100` is `a t / 1200`. */
  lemma SimpleInterestPerMonth(a: real, t: real, years: real, interest: real)
    requires years == t / 12.0 && interest == a * years / 100.0
    ensures interest == a * t / 1200.0
  {
  }

  /**
   * On a valid loan, the reducing-balance interest is the EMI plan's: what
   * its table charges month by month, and what its payments add up to beyond
   * the principal.
   */
  lemma ReducingInterestIsScheduleInterest(principal: real, rate: real, tenureMonths: nat)
    requires principal > 0.0 && rate >= 0.0 && tenureMonths > 0
    ensures var res := ReducingInterest(principal, rate, tenureMonths);
      var plan := CalculateEmi(principal, rate, tenureMonths);
      && res.error.None?
      && res.totalInterest == SumInterestPaid(plan.schedule.value)
      && res.totalAmount == SumPayments(plan.schedule.value)
  {
    EmiScheduleAddsUp(principal, rate, tenureMonths);
  }

  /**
   * On a valid loan a reducing balance never costs more than simple interest
   * over the same tenure, and never less than nothing: the balance interest
   * is charged on only falls.
   */
  lemma ReducingWithinSimple(principal: real, rate: real, tenureMonths: nat)
    requires principal > 0.0 && rate >= 0.0 && tenureMonths > 0
    ensures var reducing := ReducingInterest(principal, rate, tenureMonths);
      && 0.0 <= reducing.totalInterest
      && reducing.totalInterest <= SimpleInterest(principal, rate, tenureMonths).totalInterest
  {
    EmiInterestBounds(principal, rate, tenureMonths);
  }

  /**
   * Over a whole number of years at a non-negative rate, compounding yearly
   * never yields less interest than simple interest (Bernoulli's inequality).
   */
  lemma CompoundAtLeastSimple(principal: real, rate: real, years: nat, pow: (real, real) -> real)
    requires principal >= 0.0 && rate >= 0.0 && AgreesOnWholePowers(pow)
    ensures CompoundInterest(principal, rate, 12 * years, pow).totalInterest
            >= SimpleInterest(principal, rate, 12 * years).totalInterest
  {
    var compound := CompoundInterest(principal, rate, 12 * years, pow);
    var simple := SimpleInterest(principal, rate, 12 * years);
    var x := rate / 100.0;
    var factor := pow(1.0 + x, years as real);
    assert (12 * years) as real / 12.0 == years as real;
    assert factor >= 1.0 + years as real * x by {
      assert (years as real).Floor == years;
      Bernoulli(x, years);
    }
    CompoundGrowth(principal, rate, x, (12 * years) as real, years as real, factor, compound.totalAmount, simple.totalInterest);
  }

  /**
   * With `f >= 1 + n x` for `x = rate / 100` and `t = 12 n` months, a
   * principal grown by `f` gains at least the simple interest `p rate t / 1200`.
   */
  lemma CompoundGrowth(p: real, rate: real, x: real, t: real, n: real, f: real, amount: real, simple: real)
    requires p >= 0.0 && x == rate / 100.0 && t == 12.0 * n && f >= 1.0 + n * x
    requires amount == p * f && simple == p * rate * t / 1200.0
    ensures amount - p >= simple
  {
    MulMonotone(p, f, 1.0 + n * x);
    assert p * (1.0 + n * x) == p + p * (n * x);
    assert p * rate * t / 1200.0 == p * (n * x);
  }

  /** Over exactly one year, compounding yearly and simple interest agree. */
  lemma CompoundMatchesSimpleOverOneYear(principal: real, rate: real, pow: (real, real) -> real)
    requires rate > -100.0 && AgreesOnWholePowers(pow)
    ensures CompoundInterest(principal, rate, 12, pow).totalAmount == SimpleInterest(principal, rate, 12).totalAmount
  {
    var y := 12 as real / 12.0;
    assert y.Floor == 1;
    assert pow(1.0 + rate / 100.0, y) == Pow(1.0 + rate / 100.0, 1);
    assert principal * (1.0 + rate / 100.0) == principal + principal * rate * 12.0 / 1200.0;
  }
}
