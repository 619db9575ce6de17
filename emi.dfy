/**
 * `calculateEMI` (utils.ts): a validation gate, then either the zero-rate
 * plan (principal split evenly over the months) or the level amortizing
 * payment. The lemmas show what the plan promises: its table repays the loan
 * in exactly the given number of months with equal payments, and its
 * interest lies between nothing and the simple interest on the full principal.
 */
module Emi {
  import opened LoanTypes
  import opened RealMath
  import opened Amortization

  /**
   * The level monthly payment `p r x / (x - 1)` with `x = (1 + r)^n`, for a
   * positive monthly rate `r` and a non-zero number of months `n` (a negative
   * `n` gives a power below one, as `Math.pow` does).
   */
  function AmortizingPayment(principal: real, monthlyRate: real, tenureMonths: int): real
    requires monthlyRate > 0.0 && tenureMonths != 0
  {
    LevelPayment(principal, monthlyRate, IntPow(1.0 + monthlyRate, tenureMonths))
  }

  /** `p r x / (x - 1)`: the payment formula for a growth factor `x` over the whole term. */
  function LevelPayment(p: real, r: real, x: real): real
    requires x != 1.0
  {
    p * r * x / (x - 1.0)
  }

  /**
   * `calculateEMI(principal, rate, tenureMonths)`. A non-positive principal
   * or tenure or a negative rate is rejected with the fixed message and an
   * empty result; otherwise the result echoes the principal and the tenure,
   * carries the monthly payment and the table built from it, and its
   * interest is what is paid beyond the principal. At a zero rate the
   * principal is split evenly and no interest is due; otherwise the total is
   * the level payment for every month.
   */
  function CalculateEmi(principal: real, rate: real, tenureMonths: int): (res: CalculationResult)
    ensures res.error.Some? <==> principal <= 0.0 || rate < 0.0 || tenureMonths <= 0
    ensures res.error.Some? ==> res == ErrorResult(principal, InvalidTermsMessage)
    ensures res.error.None? ==>
      && res.principal == principal
      && res.tenureMonths == Some(tenureMonths)
      && res.monthlyPayment.Some?
      && res.totalInterest == res.totalAmount - principal
      && res.breakdown == Breakdown(principal, res.totalInterest)
      && res.schedule == Some(AmortizationSchedule(principal, rate, tenureMonths, res.monthlyPayment.value))
    ensures res.error.None? && rate == 0.0 ==>
      && res.monthlyPayment == Some(principal / tenureMonths as real)
      && res.totalAmount == principal
      && res.totalInterest == 0.0
    ensures res.error.None? && rate > 0.0 ==>
      && res.monthlyPayment == Some(AmortizingPayment(principal, MonthlyRate(rate), tenureMonths))
      && res.totalAmount == res.monthlyPayment.value * tenureMonths as real
  {
    if principal <= 0.0 || rate < 0.0 || tenureMonths <= 0 then
      ErrorResult(principal, InvalidTermsMessage)
    else
      var monthlyRate := MonthlyRate(rate);
      if monthlyRate == 0.0 then
        var emi := principal / tenureMonths as real;
        CalculationResult(principal, 0.0, Some(emi), principal, Some(tenureMonths), None,
                          Breakdown(principal, 0.0), Some(AmortizationSchedule(principal, rate, tenureMonths, emi)))
      else
        var emi := AmortizingPayment(principal, monthlyRate, tenureMonths);
        var totalAmount := emi * tenureMonths as real;
        var totalInterest := totalAmount - principal;
        CalculationResult(totalAmount, totalInterest, Some(emi), principal, Some(tenureMonths), None,
                          Breakdown(principal, totalInterest), Some(AmortizationSchedule(principal, rate, tenureMonths, emi)))
  }

  /**
   * The level payment exceeds the first month's interest by `p r / (x - 1)`,
   * and it is that surplus grown by `x`.
   */
  lemma PaymentSurplus(p: real, r: real, x: real, emi: real)
    requires x > 1.0 && emi == LevelPayment(p, r, x)
    ensures emi - p * r == p * r / (x - 1.0)
    ensures emi == (emi - p * r) * x
    ensures p * r > 0.0 ==> emi > p * r
  {
    var d := x - 1.0;
    assert emi * d == p * r * x;
    assert (emi - p * r) * d == p * r;
    if p * r > 0.0 {
      assert p * r / d > 0.0;
    }
  }

  /** If `b r = c x - c y` with `r`, `c` and `x - y` positive, then `b` is positive. */
  lemma PositiveFactor(b: real, r: real, c: real, x: real, y: real)
    requires r > 0.0 && c > 0.0 && x > y && b * r == c * x - c * y
    ensures b > 0.0
  {
    MulPositive(c, x - y);
    assert c * (x - y) == c * x - c * y;
    if b <= 0.0 {
      MulMonotone(r, 0.0, b);
    }
  }

  /**
   * The level payment for `n` months keeps the reference balance positive
   * before month `n` and clears it exactly at month `n`.
   */
  lemma AmortizingPaymentClearsBalance(principal: real, monthlyRate: real, n: nat, k: nat)
    requires principal > 0.0 && monthlyRate > 0.0 && 0 < n && k <= n
    ensures var emi := AmortizingPayment(principal, monthlyRate, n);
      && (k < n ==> Balance(principal, monthlyRate, emi, k) > 0.0)
      && (k == n ==> Balance(principal, monthlyRate, emi, k) == 0.0)
  {
    var emi := AmortizingPayment(principal, monthlyRate, n);
    var x := Pow(1.0 + monthlyRate, n);
    var xk := Pow(1.0 + monthlyRate, k);
    AmortizingPaymentAtPositiveTenure(principal, monthlyRate, n);
    MulPositive(principal, monthlyRate);
    PaymentSurplus(principal, monthlyRate, x, emi);
    var c := emi - principal * monthlyRate;
    BalanceTimesRate(principal, monthlyRate, emi, k);
    var b := Balance(principal, monthlyRate, emi, k);
    assert b * monthlyRate == c * x - c * xk;
    if k < n {
      PowStrictlyIncreasing(1.0 + monthlyRate, k, n);
      PositiveFactor(b, monthlyRate, c, x, xk);
    } else {
      assert b * monthlyRate == 0.0;
    }
  }

  /**
   * Without interest, paying `principal / n` a month keeps the reference
   * balance positive before month `n` and clears it exactly at month `n`.
   */
  lemma EvenSplitClearsBalance(principal: real, n: nat, k: nat)
    requires principal > 0.0 && 0 < n && k <= n
    ensures var emi := principal / n as real;
      && emi * n as real == principal
      && (k < n ==> Balance(principal, 0.0, emi, k) > 0.0)
      && (k == n ==> Balance(principal, 0.0, emi, k) == 0.0)
  {
    var emi := principal / n as real;
    BalanceAtZeroRate(principal, emi, k);
    assert k as real * emi == principal * k as real / n as real;
    if k < n {
      assert principal * k as real < principal * n as real;
    }
  }

  /**
   * The monthly payment of an accepted plan keeps the reference balance
   * positive before the last month and clears it in the last month.
   */
  lemma EmiClearsBalance(principal: real, rate: real, n: nat)
    requires principal > 0.0 && rate >= 0.0 && n > 0
    ensures var emi := CalculateEmi(principal, rate, n).monthlyPayment.value;
      && (forall k: nat :: 0 < k < n ==> Balance(principal, MonthlyRate(rate), emi, k) > 0.0)
      && Balance(principal, MonthlyRate(rate), emi, n) == 0.0
  {
    var r := MonthlyRate(rate);
    var emi := CalculateEmi(principal, rate, n).monthlyPayment.value;
    forall k: nat | 0 < k <= n
      ensures k < n ==> Balance(principal, r, emi, k) > 0.0
      ensures k == n ==> Balance(principal, r, emi, k) == 0.0
    {
      if rate == 0.0 {
        EvenSplitClearsBalance(principal, n, k);
      } else {
        AmortizingPaymentClearsBalance(principal, r, n, k);
      }
    }
  }

  /**
   * The plan `calculateEMI` returns repays the loan as promised: its table
   * has exactly `tenureMonths` rows, every row pays the monthly payment, and
   * the last row clears the balance.
   */
  lemma EmiScheduleRepaysLoan(principal: real, rate: real, tenureMonths: nat)
    requires principal > 0.0 && rate >= 0.0 && tenureMonths > 0
    ensures var res := CalculateEmi(principal, rate, tenureMonths);
      && res.schedule.Some? && res.monthlyPayment.Some?
      && var s := res.schedule.value;
      && |s| == tenureMonths
      && s[|s| - 1].remainingBalance == 0.0
      && (forall i :: 0 <= i < |s| ==> s[i].totalPayment == res.monthlyPayment.value)
  {
    var res := CalculateEmi(principal, rate, tenureMonths);
    EmiClearsBalance(principal, rate, tenureMonths);
    ClearingPaymentSchedule(principal, MonthlyRate(rate), res.monthlyPayment.value, tenureMonths);
  }

  /**
   * The rows of the plan's table add up to the result's totals: payments to
   * the total amount, principal parts to the principal, and interest parts
   * to the total interest.
   */
  lemma EmiScheduleAddsUp(principal: real, rate: real, tenureMonths: nat)
    requires principal > 0.0 && rate >= 0.0 && tenureMonths > 0
    ensures var res := CalculateEmi(principal, rate, tenureMonths);
      && res.schedule.Some?
      && SumPayments(res.schedule.value) == res.totalAmount
      && SumPrincipalPaid(res.schedule.value) == principal
      && SumInterestPaid(res.schedule.value) == res.totalInterest
  {
    var res := CalculateEmi(principal, rate, tenureMonths);
    var emi := res.monthlyPayment.value;
    var s := Rows(principal, MonthlyRate(rate), emi, 1, tenureMonths);
    assert res.schedule == Some(s);
    assert res.totalAmount == emi * tenureMonths as real by {
      if rate == 0.0 {
        EvenSplitClearsBalance(principal, tenureMonths, tenureMonths);
      }
    }
    assert res.totalInterest == res.totalAmount - principal;
    EmiClearsBalance(principal, rate, tenureMonths);
    ClearingPaymentTotals(principal, MonthlyRate(rate), emi, tenureMonths);
  }

  /** For a positive tenure the payment is the level payment for `x = (1 + r)^n`. */
  lemma AmortizingPaymentAtPositiveTenure(principal: real, monthlyRate: real, n: nat)
    requires monthlyRate > 0.0 && n > 0
    ensures Pow(1.0 + monthlyRate, n) > 1.0
    ensures AmortizingPayment(principal, monthlyRate, n) == LevelPayment(principal, monthlyRate, Pow(1.0 + monthlyRate, n))
  {
    assert IntPow(1.0 + monthlyRate, n) == Pow(1.0 + monthlyRate, n);
  }

  /** The payments of an amortizing plan cover the principal and stay within simple interest on it. */
  lemma AmortizingPaymentBounds(principal: real, monthlyRate: real, n: nat)
    requires principal > 0.0 && monthlyRate > 0.0 && n > 0
    ensures var total := AmortizingPayment(principal, monthlyRate, n) * n as real;
      principal <= total <= principal + principal * n as real * monthlyRate
  {
    var x := Pow(1.0 + monthlyRate, n);
    var emi := AmortizingPayment(principal, monthlyRate, n);
    assert x > 1.0 && emi == LevelPayment(principal, monthlyRate, x) by {
      AmortizingPaymentAtPositiveTenure(principal, monthlyRate, n);
    }
    assert x - 1.0 <= n as real * monthlyRate * x && x >= 1.0 + n as real * monthlyRate by {
      PowGrowthBound(monthlyRate, n);
      Bernoulli(monthlyRate, n);
    }
    PaymentBounds(principal, monthlyRate, n as real, x, emi);
  }

  /** The payment of an amortizing plan is more than the first month's interest. */
  lemma AmortizingPaymentCoversInterest(principal: real, monthlyRate: real, n: nat)
    requires principal > 0.0 && monthlyRate > 0.0 && n > 0
    ensures AmortizingPayment(principal, monthlyRate, n) > principal * monthlyRate
  {
    AmortizingPaymentAtPositiveTenure(principal, monthlyRate, n);
    MulPositive(principal, monthlyRate);
    PaymentSurplus(principal, monthlyRate, Pow(1.0 + monthlyRate, n), AmortizingPayment(principal, monthlyRate, n));
  }

  /**
   * The interest of a plan `calculateEMI` accepts is never negative and
   * never more than simple interest on the whole principal for the whole
   * tenure (`principal * rate * tenureMonths / 1200`), since the balance it
   * is charged on only falls.
   */
  lemma EmiInterestBounds(principal: real, rate: real, tenureMonths: nat)
    requires principal > 0.0 && rate >= 0.0 && tenureMonths > 0
    ensures var res := CalculateEmi(principal, rate, tenureMonths);
      0.0 <= res.totalInterest <= principal * rate * tenureMonths as real / 1200.0
  {
    if rate > 0.0 {
      var r := MonthlyRate(rate);
      var res := CalculateEmi(principal, rate, tenureMonths);
      var total := AmortizingPayment(principal, r, tenureMonths) * tenureMonths as real;
      assert res.totalInterest == total - principal;
      AmortizingPaymentBounds(principal, r, tenureMonths);
      InterestWithinSimple(principal, rate, r, tenureMonths as real, total, res.totalInterest);
    } else {
      MulMonotone(principal, 0.0, 0.0);
    }
  }

  /** Payments between the principal and the principal plus simple interest leave interest within that simple interest. */
  lemma InterestWithinSimple(p: real, rate: real, r: real, n: real, total: real, interest: real)
    requires r == rate / 1200.0 && p <= total <= p + p * n * r && interest == total - p
    ensures 0.0 <= interest <= p * rate * n / 1200.0
  {
    assert p * n * r == p * rate * n / 1200.0;
  }

  /**
   * Both bounds of `EmiInterestBounds` on plain numbers: with `x - 1 <= n r x`
   * the payments cover the principal, and with `x >= 1 + n r` they stay
   * within the principal plus simple interest.
   */
  lemma PaymentBounds(p: real, r: real, n: real, x: real, emi: real)
    requires p > 0.0 && r > 0.0 && n >= 1.0 && x > 1.0
    requires emi == LevelPayment(p, r, x)
    requires x - 1.0 <= n * r * x && x >= 1.0 + n * r
    ensures p <= emi * n <= p + p * n * r
  {
    var d := x - 1.0;
    var total := emi * n;
    assert emi * d == p * r * x;
    assert total * d == p * (n * r * x);
    MulMonotone(p, n * r * x, d);
    assert p * d <= total * d;
    if total < p {
      MulMonotone(d, p, total);
      assert false;
    }
    assert n * r * x <= (1.0 + n * r) * d;
    MulMonotone(p, (1.0 + n * r) * d, n * r * x);
    assert total * d <= (p + p * n * r) * d;
    if total > p + p * n * r {
      MulMonotone(d, total, p + p * n * r);
      assert false;
    }
  }

  /** The monthly payment of an accepted plan is positive and covers the first month's interest. */
  lemma EmiCoversFirstInterest(principal: real, rate: real, tenureMonths: nat)
    requires principal > 0.0 && rate >= 0.0 && tenureMonths > 0
    ensures var res := CalculateEmi(principal, rate, tenureMonths);
      && res.monthlyPayment.Some?
      && res.monthlyPayment.value > principal * MonthlyRate(rate)
  {
    if rate > 0.0 {
      AmortizingPaymentCoversInterest(principal, MonthlyRate(rate), tenureMonths);
    } else {
      assert principal / tenureMonths as real > 0.0;
    }
  }
}
