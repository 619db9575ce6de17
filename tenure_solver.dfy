/**
 * `calculateAdvanced` (utils.ts): how many months a fixed EMI takes to
 * repay a loan, from the closed form `n = ln(emi / (emi - P r)) / ln(1 + r)`
 * rounded up, behind a gate that rejects an EMI not above the first
 * month's interest. The lemmas show that the gate rejects exactly the EMIs
 * that never repay the loan, and that the rounded-up tenure is the least
 * number of months that does, so the table built for it ends on its last
 * month at a zero balance.
 */
module TenureSolver {
  import opened LoanTypes
  import opened RealMath
  import opened Amortization

  /**
   * The closed-form number of months, `ln(emi / (emi - P r)) / ln(1 + r)`,
   * for an EMI above the first month's interest at a positive monthly rate.
   */
  function MonthsNeeded(principal: real, monthlyRate: real, emi: real, ln: real -> real): real
    requires monthlyRate > 0.0 && emi > principal * monthlyRate && IsLogarithm(ln)
  {
    LogPositiveAboveOne(ln, 1.0 + monthlyRate);
    ln(emi / (emi - principal * monthlyRate)) / ln(1.0 + monthlyRate)
  }

  /**
   * `calculateAdvanced(principal, rate, emi)`: the "EMI is too low" record
   * when the EMI does not exceed the first month's interest; otherwise the
   * plan over the closed-form tenure rounded up, with its totals, its
   * breakdown and its table.
   */
  function CalculateAdvanced(principal: real, rate: real, emi: real, ln: real -> real): (res: CalculationResult)
    requires rate > 0.0 && IsLogarithm(ln)
    ensures res.error.Some? <==> emi <= principal * MonthlyRate(rate)
    ensures res.error.Some? ==> res == ErrorResult(principal, EmiTooLowMessage)
    ensures res.error.None? ==>
      var n := MonthsNeeded(principal, MonthlyRate(rate), emi, ln);
      && res.tenureMonths.Some?
      && n <= res.tenureMonths.value as real < n + 1.0
      && res.monthlyPayment == Some(emi)
      && res.principal == principal
      && res.totalAmount == emi * res.tenureMonths.value as real
      && res.totalInterest == res.totalAmount - principal
      && res.breakdown == Breakdown(principal, res.totalInterest)
      && res.schedule == Some(AmortizationSchedule(principal, rate, res.tenureMonths.value, emi))
  {
    var monthlyRate := rate / (12.0 * 100.0);
    if emi <= principal * monthlyRate then
      ErrorResult(principal, EmiTooLowMessage)
    else
      var n := MonthsNeeded(principal, monthlyRate, emi, ln);
      var totalMonths := Ceil(n);
      var totalAmount := emi * totalMonths as real;
      var totalInterest := totalAmount - principal;
      CalculationResult(totalAmount, totalInterest, Some(emi), principal, Some(totalMonths), None,
                        Breakdown(principal, totalInterest), Some(AmortizationSchedule(principal, rate, totalMonths, emi)))
  }

  /**
   * An EMI that does not exceed the first month's interest never repays a
   * positive loan: after any number of payments the balance is still at
   * least the principal. So the gate rejects only hopeless EMIs.
   */
  lemma TooLowEmiNeverRepays(principal: real, monthlyRate: real, emi: real, k: nat)
    requires principal > 0.0 && monthlyRate > 0.0 && emi <= principal * monthlyRate
    ensures Balance(principal, monthlyRate, emi, k) >= principal
  {
    var x := Pow(1.0 + monthlyRate, k);
    BalanceTimesRate(principal, monthlyRate, emi, k);
    BalanceAtLeastPrincipal(Balance(principal, monthlyRate, emi, k), principal, monthlyRate, emi,
                            emi - principal * monthlyRate, principal * monthlyRate, x);
  }

  /** `TooLowEmiNeverRepays` on plain numbers: with `c <= 0` and `x >= 1`, `b r = e - c x` gives `b >= p`. */
  lemma BalanceAtLeastPrincipal(b: real, p: real, r: real, e: real, c: real, pr: real, x: real)
    requires r > 0.0 && x >= 1.0 && pr == p * r && c == e - pr && c <= 0.0
    requires b * r == e - c * x
    ensures b >= p
  {
    MulMonotone(-c, x, 1.0);
    assert (-c) * x == -(c * x);
    assert b * r >= pr;
  }

  /**
   * The balance after `k` payments of a positive EMI above the first
   * month's interest is still positive exactly when `k` is below the
   * closed-form number of months.
   */
  lemma BalancePositiveIff(principal: real, monthlyRate: real, emi: real, ln: real -> real, k: nat)
    requires monthlyRate > 0.0 && emi > 0.0 && emi > principal * monthlyRate && IsLogarithm(ln)
    ensures Balance(principal, monthlyRate, emi, k) > 0.0 <==> (k as real) < MonthsNeeded(principal, monthlyRate, emi, ln)
  {
    var c := emi - principal * monthlyRate;
    var z := emi / c;
    var xk := Pow(1.0 + monthlyRate, k);
    BalanceBelowTarget(principal, monthlyRate, emi, k, c, z);
    PowerBelowTarget(principal, monthlyRate, emi, ln, k, c, z);
  }

  /** The balance after `k` payments is positive exactly when `(1 + r)^k` is below `emi / (emi - P r)`. */
  lemma BalanceBelowTarget(principal: real, monthlyRate: real, emi: real, k: nat, c: real, z: real)
    requires monthlyRate > 0.0 && c == emi - principal * monthlyRate && c > 0.0 && z == emi / c
    ensures Balance(principal, monthlyRate, emi, k) > 0.0 <==> Pow(1.0 + monthlyRate, k) < z
  {
    BalanceTimesRate(principal, monthlyRate, emi, k);
    PositiveBalanceIff(Balance(principal, monthlyRate, emi, k), monthlyRate, emi, c, Pow(1.0 + monthlyRate, k), z);
  }

  /** `(1 + r)^k` is below `emi / (emi - P r)` exactly when `k` is below the closed-form number of months. */
  lemma PowerBelowTarget(principal: real, monthlyRate: real, emi: real, ln: real -> real, k: nat, c: real, z: real)
    requires monthlyRate > 0.0 && emi > 0.0 && emi > principal * monthlyRate && IsLogarithm(ln)
    requires c == emi - principal * monthlyRate && z == emi / c
    ensures Pow(1.0 + monthlyRate, k) < z <==> (k as real) < MonthsNeeded(principal, monthlyRate, emi, ln)
  {
    var x := 1.0 + monthlyRate;
    var xk := Pow(x, k);
    var n := MonthsNeeded(principal, monthlyRate, emi, ln);
    assert z > 0.0;
    var lx, lz := ln(x), ln(z);
    assert xk < z <==> ln(xk) < lz by {
      LogOrderIff(ln, xk, z);
    }
    assert ln(xk) == (k as real) * lx;
    assert lx > 0.0 by {
      LogPositiveAboveOne(ln, x);
    }
    assert n == lz / lx;
    DivisionOrderIff(k as real, lx, lz, n);
  }

  /** With `c > 0`, `r > 0` and `b r = e - c x`: `b > 0` exactly when `x < e / c`. */
  lemma PositiveBalanceIff(b: real, r: real, e: real, c: real, x: real, z: real)
    requires r > 0.0 && c > 0.0 && b * r == e - c * x && z == e / c
    ensures b > 0.0 <==> x < z
  {
    assert e == c * z;
    assert b * r == c * (z - x);
    if b > 0.0 {
      MulPositive(b, r);
      if z - x <= 0.0 {
        MulMonotone(c, 0.0, z - x);
      }
    } else {
      MulMonotone(r, 0.0, b);
      if z - x > 0.0 {
        MulPositive(c, z - x);
      }
    }
  }

  /** With `l > 0` and `n = q / l`: `a l < q` exactly when `a < n`. */
  lemma DivisionOrderIff(a: real, l: real, q: real, n: real)
    requires l > 0.0 && n == q / l
    ensures a * l < q <==> a < n
  {
    assert q == n * l;
    if a < n {
      MulMonotone(l, n, a);
      assert a * l != n * l by {
        assert n * l - a * l == (n - a) * l;
        MulPositive(n - a, l);
      }
    } else {
      MulMonotone(l, a, n);
    }
  }

  /**
   * For a positive loan and an EMI above the first month's interest, the
   * solved tenure is the least number of months that repays the loan: it is
   * at least one, every earlier month leaves a positive balance, and its
   * last month leaves none.
   */
  lemma TenureIsLeastRepayingMonth(principal: real, rate: real, emi: real, ln: real -> real)
    requires principal > 0.0 && rate > 0.0 && IsLogarithm(ln) && emi > principal * MonthlyRate(rate)
    ensures var res := CalculateAdvanced(principal, rate, emi, ln);
      var months := res.tenureMonths.value;
      && res.error.None?
      && months >= 1
      && Balance(principal, MonthlyRate(rate), emi, months) <= 0.0
      && forall k: nat :: k < months ==> Balance(principal, MonthlyRate(rate), emi, k) > 0.0
  {
    var r := MonthlyRate(rate);
    var res := CalculateAdvanced(principal, rate, emi, ln);
    assert res.error.None? && res.tenureMonths.Some?;
    var months := res.tenureMonths.value;
    assert months >= 0 by {
      assert 0.0 < emi by {
        MulPositive(principal, r);
      }
      BalancePositiveIff(principal, r, emi, ln, 0);
    }
    WholeMonthsNeeded(principal, r, emi, ln, months);
  }

  /**
   * A whole number of months in [n, n + 1), for `n` the months needed, is
   * the least number that leaves no positive balance.
   */
  lemma WholeMonthsNeeded(principal: real, r: real, emi: real, ln: real -> real, months: nat)
    requires principal > 0.0 && r > 0.0 && IsLogarithm(ln) && emi > principal * r
    requires var n := MonthsNeeded(principal, r, emi, ln);
      n <= months as real < n + 1.0
    ensures months >= 1
    ensures Balance(principal, r, emi, months) <= 0.0
    ensures forall k: nat :: k < months ==> Balance(principal, r, emi, k) > 0.0
  {
    assert emi > 0.0 by {
      MulPositive(principal, r);
    }
    BalancePositiveIff(principal, r, emi, ln, 0);
    BalancePositiveIff(principal, r, emi, ln, months);
    forall k: nat | k < months
      ensures Balance(principal, r, emi, k) > 0.0
    {
      BalancePositiveIff(principal, r, emi, ln, k);
    }
  }

  /**
   * The table built for the solved tenure has exactly that many rows: every
   * month but the last pays the full EMI, and the last month pays off what
   * is left, at most one EMI, and closes at a zero balance.
   */
  lemma TenureScheduleRepaysLoan(principal: real, rate: real, emi: real, ln: real -> real)
    requires principal > 0.0 && rate > 0.0 && IsLogarithm(ln) && emi > principal * MonthlyRate(rate)
    ensures var res := CalculateAdvanced(principal, rate, emi, ln);
      var s := res.schedule.value;
      var months := res.tenureMonths.value;
      && months >= 1
      && |s| == months
      && s[|s| - 1].remainingBalance == 0.0
      && s[|s| - 1].totalPayment == emi + Balance(principal, MonthlyRate(rate), emi, months)
      && s[|s| - 1].totalPayment <= emi
      && forall i :: 0 <= i < |s| - 1 ==> s[i].totalPayment == emi
  {
    var r := MonthlyRate(rate);
    var months := CalculateAdvanced(principal, rate, emi, ln).tenureMonths.value;
    TenureIsLeastRepayingMonth(principal, rate, emi, ln);
    RowsTrackBalance(principal, r, emi, 0, months, months);
  }

  /**
   * Over the solved tenure the table's principal parts add up to the loan,
   * and its payments fall short of the reported total amount by what the
   * last month does not need: `totalAmount` counts a full EMI for it.
   */
  lemma TenureTotalsAgainstSchedule(principal: real, rate: real, emi: real, ln: real -> real)
    requires principal > 0.0 && rate > 0.0 && IsLogarithm(ln) && emi > principal * MonthlyRate(rate)
    ensures var res := CalculateAdvanced(principal, rate, emi, ln);
      var s := res.schedule.value;
      && SumPrincipalPaid(s) == principal
      && SumPayments(s) == res.totalAmount + Balance(principal, MonthlyRate(rate), emi, res.tenureMonths.value)
      && SumPayments(s) <= res.totalAmount
  {
    var r := MonthlyRate(rate);
    var res := CalculateAdvanced(principal, rate, emi, ln);
    assert res.error.None?;
    var months := res.tenureMonths.value;
    assert res.schedule == Some(Rows(principal, r, emi, 1, months));
    assert res.totalAmount == emi * months as real;
    TenureIsLeastRepayingMonth(principal, rate, emi, ln);
    ClearingResultTotals(principal, r, emi, months, res);
  }

  /** `TenureTotalsAgainstSchedule` on a result whose table and total are over `months` months. */
  lemma ClearingResultTotals(principal: real, monthlyRate: real, emi: real, months: nat, res: CalculationResult)
    requires months >= 1
    requires forall k: nat :: k < months ==> Balance(principal, monthlyRate, emi, k) > 0.0
    requires Balance(principal, monthlyRate, emi, months) <= 0.0
    requires res.schedule == Some(Rows(principal, monthlyRate, emi, 1, months))
    requires res.totalAmount == emi * months as real
    ensures SumPrincipalPaid(res.schedule.value) == principal
    ensures SumPayments(res.schedule.value) == res.totalAmount + Balance(principal, monthlyRate, emi, months)
    ensures SumPayments(res.schedule.value) <= res.totalAmount
  {
    ClearingTableTotals(principal, monthlyRate, emi, months);
  }

  /**
   * A table over the least number of months that clears the balance repays
   * exactly the principal, and its payments add up to that many EMIs plus
   * the (non-positive) balance the last full EMI would have left.
   */
  lemma ClearingTableTotals(principal: real, monthlyRate: real, emi: real, months: nat)
    requires months >= 1
    requires forall k: nat :: k < months ==> Balance(principal, monthlyRate, emi, k) > 0.0
    requires Balance(principal, monthlyRate, emi, months) <= 0.0
    ensures var s := Rows(principal, monthlyRate, emi, 1, months);
      && SumPrincipalPaid(s) == principal
      && SumPayments(s) == emi * months as real + Balance(principal, monthlyRate, emi, months)
  {
    var s := Rows(principal, monthlyRate, emi, 1, months);
    var shortfall := Balance(principal, monthlyRate, emi, months);
    RowsTrackBalance(principal, monthlyRate, emi, 0, months, months);
    assert SumPrincipalPaid(s) == principal by {
      PrincipalPaidAddsUp(principal, monthlyRate, emi, 1, months);
    }
    assert SumPayments(s) == emi * months as real + shortfall by {
      FullPaymentsThenLast(s, emi, months);
      LastPaymentShortfall(emi, months, SumPayments(s), s[|s| - 1].totalPayment, shortfall, emi * months as real);
    }
  }

  /**
   * `count - 1` payments of `emi` and a last one of `emi + shortfall` add up
   * to `total = emi count` plus the shortfall.
   */
  lemma LastPaymentShortfall(emi: real, count: nat, sum: real, last: real, shortfall: real, total: real)
    requires count >= 1 && sum == emi * (count - 1) as real + last && last == emi + shortfall
    requires total == emi * count as real
    ensures sum == total + shortfall
  {
    assert emi * count as real == emi * (count - 1) as real + emi;
  }

  /**
   * `count` rows that all pay `payment` except the last add up to `payment`
   * `count - 1` times plus the last row's payment.
   */
  lemma {:induction false} FullPaymentsThenLast(rows: seq<AmortizationRow>, payment: real, count: nat)
    requires |rows| == count >= 1
    requires forall i :: 0 <= i < |rows| - 1 ==> rows[i].totalPayment == payment
    ensures SumPayments(rows) == payment * (count - 1) as real + rows[|rows| - 1].totalPayment
  {
    if count > 1 {
      FullPaymentsThenLast(rows[1..], payment, count - 1);
      assert payment * (count - 1) as real == payment + payment * (count - 2) as real;
    }
  }

  /** When `emi / (emi - P r)` is `(1 + r)^n`, exactly `n` months are needed. */
  lemma MonthsNeededAtWholePower(principal: real, monthlyRate: real, emi: real, ln: real -> real, n: nat)
    requires monthlyRate > 0.0 && emi > principal * monthlyRate && IsLogarithm(ln)
    requires emi / (emi - principal * monthlyRate) == Pow(1.0 + monthlyRate, n)
    ensures MonthsNeeded(principal, monthlyRate, emi, ln) == n as real
  {
    var x := Pow(1.0 + monthlyRate, n);
    LogPositiveAboveOne(ln, 1.0 + monthlyRate);
    assert ln(x) == n as real * ln(1.0 + monthlyRate);
    QuotientOfMultiple(ln(x), ln(1.0 + monthlyRate), n as real);
  }

  /** When exactly `n` months are needed, the tenure solve reports the plan over `n` months. */
  lemma SolvedAtWholeMonths(principal: real, rate: real, emi: real, ln: real -> real, n: nat)
    requires rate > 0.0 && IsLogarithm(ln) && emi > principal * MonthlyRate(rate)
    requires MonthsNeeded(principal, MonthlyRate(rate), emi, ln) == n as real
    ensures var solved := CalculateAdvanced(principal, rate, emi, ln);
      && solved.error.None?
      && solved.tenureMonths == Some(n)
      && solved.monthlyPayment == Some(emi)
      && solved.totalAmount == emi * n as real
      && solved.schedule == Some(AmortizationSchedule(principal, rate, n, emi))
  {
  }

  /** `a / l` is `k` when `a = k l` and `l > 0`. */
  lemma QuotientOfMultiple(a: real, l: real, k: real)
    requires l > 0.0 && a == k * l
    ensures a / l == k
  {
  }
}
