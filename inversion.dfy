/**
 * The two engine calls for a fixed-payment loan undo each other: the level
 * payment `calculateEMI` finds for a tenure makes `calculateAdvanced` find
 * that tenure again, with the same total and the same table (utils.ts).
 */
module Inversion {
  import opened LoanTypes
  import opened RealMath
  import opened Amortization
  import opened Emi
  import opened TenureSolver

  /**
   * Solving for the tenure at the level payment of a plan over
   * `tenureMonths` months gives back that tenure, the plan's total amount
   * (`calculateEMI` reports the same payment times the same tenure) and its
   * table.
   */
  lemma TenureSolveInvertsEmi(principal: real, rate: real, tenureMonths: nat, ln: real -> real)
    requires principal > 0.0 && rate > 0.0 && tenureMonths > 0 && IsLogarithm(ln)
    ensures AmortizingPayment(principal, MonthlyRate(rate), tenureMonths) > principal * MonthlyRate(rate)
    ensures var emi := AmortizingPayment(principal, MonthlyRate(rate), tenureMonths);
      var solved := CalculateAdvanced(principal, rate, emi, ln);
      && solved.error.None?
      && solved.tenureMonths == Some(tenureMonths)
      && solved.monthlyPayment == Some(emi)
      && solved.totalAmount == emi * tenureMonths as real
      && solved.schedule == Some(AmortizationSchedule(principal, rate, tenureMonths, emi))
  {
    PlanPaymentNeedsItsTenure(principal, MonthlyRate(rate), tenureMonths, ln);
    SolvedAtWholeMonths(principal, rate, AmortizingPayment(principal, MonthlyRate(rate), tenureMonths), ln, tenureMonths);
  }

  /**
   * The two calls as an inverse pair: the tenure solve at the monthly
   * payment `calculateEMI` reports for a valid loan at a positive rate
   * returns `calculateEMI`'s record itself.
   */
  lemma TenureSolveUndoesCalculateEmi(principal: real, rate: real, tenureMonths: nat, ln: real -> real)
    requires principal > 0.0 && rate > 0.0 && tenureMonths > 0 && IsLogarithm(ln)
    ensures var plan := CalculateEmi(principal, rate, tenureMonths);
      && plan.monthlyPayment.Some?
      && CalculateAdvanced(principal, rate, plan.monthlyPayment.value, ln) == plan
  {
    TenureSolveInvertsEmi(principal, rate, tenureMonths, ln);
  }

  /** At the level payment for `n` months, the closed form needs exactly `n` months. */
  lemma PlanPaymentNeedsItsTenure(principal: real, monthlyRate: real, n: nat, ln: real -> real)
    requires principal > 0.0 && monthlyRate > 0.0 && n > 0 && IsLogarithm(ln)
    ensures AmortizingPayment(principal, monthlyRate, n) > principal * monthlyRate
    ensures MonthsNeeded(principal, monthlyRate, AmortizingPayment(principal, monthlyRate, n), ln) == n as real
  {
    PlanGrowthFactor(principal, monthlyRate, n);
    MonthsNeededAtWholePower(principal, monthlyRate, AmortizingPayment(principal, monthlyRate, n), ln, n);
  }

  /** The level payment over `n` months exceeds the first month's interest, and `emi / (emi - P r)` is `(1 + r)^n`. */
  lemma PlanGrowthFactor(principal: real, monthlyRate: real, n: nat)
    requires principal > 0.0 && monthlyRate > 0.0 && n > 0
    ensures var emi := AmortizingPayment(principal, monthlyRate, n);
      && emi > principal * monthlyRate
      && emi / (emi - principal * monthlyRate) == Pow(1.0 + monthlyRate, n)
  {
    AmortizingPaymentAtPositiveTenure(principal, monthlyRate, n);
    MulPositive(principal, monthlyRate);
    GrowthFromPayment(principal * monthlyRate, Pow(1.0 + monthlyRate, n), AmortizingPayment(principal, monthlyRate, n));
  }

  /** For the level payment `e = i x / (x - 1)` on first-month interest `i > 0`, `e / (e - i)` is `x`. */
  lemma GrowthFromPayment(interest: real, x: real, emi: real)
    requires interest > 0.0 && x > 1.0 && emi == interest * x / (x - 1.0)
    ensures emi - interest > 0.0 && emi / (emi - interest) == x
  {
    var d := x - 1.0;
    assert emi * d == interest * x;
    assert (emi - interest) * d == interest;
    assert emi == x * (emi - interest);
  }
}
