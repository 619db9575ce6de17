/**
 * The month-by-month repayment table (`calculateAmortizationSchedule` in
 * utils.ts). `Rows` is the table as a function of the opening balance and
 * the first month; `CalculateAmortizationSchedule` is the source's loop,
 * proved to build exactly that table. `Balance` is the textbook balance
 * after k equal payments, an independent reference the table is compared with.
 */
module Amortization {
  import opened LoanTypes
  import opened RealMath

  /** An annual percentage rate as a monthly fraction: `annualRate / (12 * 100)`. */
  function MonthlyRate(annualRate: real): real
  {
    annualRate / 1200.0
  }

  /**
   * One month of the table, from the balance the month opens with: interest
   * on that balance, the payment's principal part capped at that balance, and
   * the closing balance, which is what is left of the opening one and never
   * negative.
   */
  function NextRow(balance: real, monthlyRate: real, emi: real, month: int): (row: AmortizationRow)
    ensures row.month == month
    ensures row.interestPaid == balance * monthlyRate
    ensures row.principalPaid <= balance
    ensures row.remainingBalance == balance - row.principalPaid
    ensures row.remainingBalance >= 0.0
    ensures row.totalPayment == row.principalPaid + row.interestPaid
  {
    var interestPaid := balance * monthlyRate;
    var principalPaid := Min(emi - interestPaid, balance);
    var remainingBalance := Max(0.0, balance - principalPaid);
    AmortizationRow(month, principalPaid, interestPaid, principalPaid + interestPaid, remainingBalance)
  }

  /**
   * The rows for months `month..tenureMonths`, starting from `balance`; the
   * table ends after the first month whose closing balance is zero.
   */
  function Rows(balance: real, monthlyRate: real, emi: real, month: int, tenureMonths: int): (rows: seq<AmortizationRow>)
    decreases if month <= tenureMonths then tenureMonths - month + 1 else 0
    ensures month > tenureMonths ==> rows == []
    ensures month <= tenureMonths ==> 1 <= |rows| <= tenureMonths - month + 1
  {
    if month > tenureMonths then []
    else
      var row := NextRow(balance, monthlyRate, emi, month);
      if row.remainingBalance <= 0.0 then [row]
      else [row] + Rows(row.remainingBalance, monthlyRate, emi, month + 1, tenureMonths)
  }

  /**
   * The table `calculateAmortizationSchedule(principal, annualRate,
   * tenureMonths, emi)` returns: at most `tenureMonths` rows, and at least
   * one when `tenureMonths` is positive.
   */
  function AmortizationSchedule(principal: real, annualRate: real, tenureMonths: int, emi: real): (s: seq<AmortizationRow>)
    ensures |s| <= if tenureMonths > 0 then tenureMonths else 0
    ensures tenureMonths > 0 ==> |s| >= 1
  {
    Rows(principal, MonthlyRate(annualRate), emi, 1, tenureMonths)
  }

  /** The source's loop: push one row per month, stop once the balance is cleared. */
  method CalculateAmortizationSchedule(principal: real, annualRate: real, tenureMonths: int, emi: real)
    returns (schedule: seq<AmortizationRow>)
    ensures schedule == AmortizationSchedule(principal, annualRate, tenureMonths, emi)
  {
    schedule := [];
    var remainingBalance := principal;
    var monthlyRate := annualRate / (12.0 * 100.0);
    assert monthlyRate == MonthlyRate(annualRate);
    var i := 1;
    while i <= tenureMonths
      invariant schedule + Rows(remainingBalance, monthlyRate, emi, i, tenureMonths)
                == AmortizationSchedule(principal, annualRate, tenureMonths, emi)
    {
      ghost var opening := remainingBalance;
      var interestPaid := remainingBalance * monthlyRate;
      var principalPaid := Min(emi - interestPaid, remainingBalance);
      remainingBalance := Max(0.0, remainingBalance - principalPaid);
      var row := AmortizationRow(i, principalPaid, interestPaid, principalPaid + interestPaid, remainingBalance);
      assert schedule + Rows(opening, monthlyRate, emi, i, tenureMonths)
             == schedule + [row] + (if remainingBalance <= 0.0 then [] else Rows(remainingBalance, monthlyRate, emi, i + 1, tenureMonths)) by {
        NextRowFromParts(opening, monthlyRate, emi, i, interestPaid, principalPaid, remainingBalance);
        RowsUnfold(opening, monthlyRate, emi, i, tenureMonths);
      }
      schedule := schedule + [row];
      if remainingBalance <= 0.0 {
        break;
      }
      i := i + 1;
    }
  }

  /** The row the loop assembles from its three computed parts is `NextRow`. */
  lemma NextRowFromParts(balance: real, monthlyRate: real, emi: real, month: int,
                         interestPaid: real, principalPaid: real, remainingBalance: real)
    requires interestPaid == balance * monthlyRate
    requires principalPaid == Min(emi - interestPaid, balance)
    requires remainingBalance == Max(0.0, balance - principalPaid)
    ensures AmortizationRow(month, principalPaid, interestPaid, principalPaid + interestPaid, remainingBalance)
            == NextRow(balance, monthlyRate, emi, month)
  {
  }

  /** One step of `Rows`: the first row, then the rest of the table if the balance is not cleared. */
  lemma RowsUnfold(balance: real, monthlyRate: real, emi: real, month: int, tenureMonths: int)
    requires month <= tenureMonths
    ensures var row := NextRow(balance, monthlyRate, emi, month);
      Rows(balance, monthlyRate, emi, month, tenureMonths)
      == if row.remainingBalance <= 0.0 then [row]
         else [row] + Rows(row.remainingBalance, monthlyRate, emi, month + 1, tenureMonths)
  {
  }

  /**
   * The rows are numbered from `month` on, every row but the last leaves a
   * positive balance, a table shorter than the months available ends
   * with a zero balance, and every payment is principal plus interest.
   */
  lemma {:induction false} RowsShape(balance: real, monthlyRate: real, emi: real, month: int, tenureMonths: int)
    ensures var rows := Rows(balance, monthlyRate, emi, month, tenureMonths);
      forall i :: 0 <= i < |rows| ==> rows[i].month == month + i
    ensures var rows := Rows(balance, monthlyRate, emi, month, tenureMonths);
      forall i :: 0 <= i < |rows| - 1 ==> rows[i].remainingBalance > 0.0
    ensures var rows := Rows(balance, monthlyRate, emi, month, tenureMonths);
      0 < |rows| < tenureMonths - month + 1 ==> rows[|rows| - 1].remainingBalance == 0.0
    ensures var rows := Rows(balance, monthlyRate, emi, month, tenureMonths);
      forall i :: 0 <= i < |rows| ==> rows[i].totalPayment == rows[i].principalPaid + rows[i].interestPaid
    decreases if month <= tenureMonths then tenureMonths - month + 1 else 0
  {
    if month <= tenureMonths {
      RowsUnfold(balance, monthlyRate, emi, month, tenureMonths);
      var row := NextRow(balance, monthlyRate, emi, month);
      if row.remainingBalance > 0.0 {
        var rows := Rows(balance, monthlyRate, emi, month, tenureMonths);
        var rest := Rows(row.remainingBalance, monthlyRate, emi, month + 1, tenureMonths);
        RowsShape(row.remainingBalance, monthlyRate, emi, month + 1, tenureMonths);
        assert rows == [row] + rest;
        forall i | 1 <= i < |rows|
          ensures rows[i] == rest[i - 1]
        {
        }
      }
    }
  }

  /**
   * The table of `calculateAmortizationSchedule` has its months numbered 1,
   * 2, 3, ... in order, every row but the last leaves a positive balance, and
   * a table with fewer than `tenureMonths` rows ends with a cleared balance.
   */
  lemma ScheduleShape(principal: real, annualRate: real, tenureMonths: int, emi: real)
    ensures var s := AmortizationSchedule(principal, annualRate, tenureMonths, emi);
      forall i :: 0 <= i < |s| ==> s[i].month == i + 1
    ensures var s := AmortizationSchedule(principal, annualRate, tenureMonths, emi);
      forall i :: 0 <= i < |s| - 1 ==> s[i].remainingBalance > 0.0
    ensures var s := AmortizationSchedule(principal, annualRate, tenureMonths, emi);
      0 < |s| < tenureMonths ==> s[|s| - 1].remainingBalance == 0.0
  {
    RowsShape(principal, MonthlyRate(annualRate), emi, 1, tenureMonths);
  }

  /** Every row of the table is the month computed from the balance the previous row closed with. */
  lemma {:induction false} RowsFollowOpeningBalance(balance: real, monthlyRate: real, emi: real, month: int, tenureMonths: int)
    ensures var rows := Rows(balance, monthlyRate, emi, month, tenureMonths);
      |rows| > 0 ==> rows[0] == NextRow(balance, monthlyRate, emi, month)
    ensures var rows := Rows(balance, monthlyRate, emi, month, tenureMonths);
      forall i, j :: 0 <= i && j == i + 1 && j < |rows| ==>
        rows[j] == NextRow(rows[i].remainingBalance, monthlyRate, emi, month + j)
    decreases if month <= tenureMonths then tenureMonths - month + 1 else 0
  {
    var rows := Rows(balance, monthlyRate, emi, month, tenureMonths);
    if month <= tenureMonths {
      RowsUnfold(balance, monthlyRate, emi, month, tenureMonths);
      var row := NextRow(balance, monthlyRate, emi, month);
      if row.remainingBalance > 0.0 {
        var rest := Rows(row.remainingBalance, monthlyRate, emi, month + 1, tenureMonths);
        RowsFollowOpeningBalance(row.remainingBalance, monthlyRate, emi, month + 1, tenureMonths);
        assert rows == [row] + rest;
        forall i, j | 0 <= i && j == i + 1 && j < |rows|
          ensures rows[j] == NextRow(rows[i].remainingBalance, monthlyRate, emi, month + j)
        {
          assert rows[j] == rest[i];
          if i > 0 {
            assert rows[i] == rest[i - 1];
          }
        }
      }
    }
  }

  /**
   * Every row of the table of `calculateAmortizationSchedule` follows from
   * the balance the month opens with (the principal, then the previous
   * row's closing balance): row `k` is month `k + 1`, interest is that
   * balance times the monthly rate (zero at a zero rate), the principal part
   * is what the EMI leaves after interest, capped at that balance, the
   * closing balance is what is left of it and is never negative, and the
   * payment is principal plus interest.
   */
  lemma ScheduleFollowsOpeningBalance(principal: real, annualRate: real, tenureMonths: int, emi: real)
    ensures var s := AmortizationSchedule(principal, annualRate, tenureMonths, emi);
      |s| > 0 ==> FollowsFrom(s[0], principal, annualRate, emi, 1)
    ensures var s := AmortizationSchedule(principal, annualRate, tenureMonths, emi);
      forall i, j :: 0 <= i && j == i + 1 && j < |s| ==> FollowsFrom(s[j], s[i].remainingBalance, annualRate, emi, j + 1)
  {
    var s := AmortizationSchedule(principal, annualRate, tenureMonths, emi);
    RowsFollowOpeningBalance(principal, MonthlyRate(annualRate), emi, 1, tenureMonths);
    forall i, j | 0 <= i && j == i + 1 && j < |s|
      ensures FollowsFrom(s[j], s[i].remainingBalance, annualRate, emi, j + 1)
    {
      NextRowFollowsSource(s[j], s[i].remainingBalance, annualRate, emi, 1 + j);
    }
    if |s| > 0 {
      NextRowFollowsSource(s[0], principal, annualRate, emi, 1);
    }
  }

  /**
   * How the row for `month` relates to the balance the month opens with:
   * interest at `annualRate / 1200` on that balance (zero at a zero rate), a
   * principal part of `min(emi - interest, opening)`, which does not exceed
   * it, a closing balance of `max(0, opening - principal part)` that is
   * never negative, and a payment of principal plus interest.
   */
  ghost predicate FollowsFrom(row: AmortizationRow, opening: real, annualRate: real, emi: real, month: int)
  {
    && row.month == month
    && row.interestPaid == opening * MonthlyRate(annualRate)
    && row.principalPaid == Min(emi - row.interestPaid, opening)
    && (annualRate == 0.0 ==> row.interestPaid == 0.0)
    && row.principalPaid <= opening
    && row.remainingBalance == Max(0.0, opening - row.principalPaid)
    && row.remainingBalance >= 0.0
    && row.totalPayment == row.principalPaid + row.interestPaid
  }

  lemma NextRowFollowsSource(row: AmortizationRow, opening: real, annualRate: real, emi: real, month: int)
    requires row == NextRow(opening, MonthlyRate(annualRate), emi, month)
    ensures FollowsFrom(row, opening, annualRate, emi, month)
  {
  }

  /**
   * When the rate is not negative and the payment covers the interest on a
   * non-negative opening balance, no row closes above the balance before
   * it: the closing balances never increase and never exceed the opening one.
   */
  lemma {:induction false} BalanceNeverIncreases(balance: real, monthlyRate: real, emi: real, month: int, tenureMonths: int)
    requires monthlyRate >= 0.0 && balance >= 0.0 && emi >= balance * monthlyRate
    ensures var rows := Rows(balance, monthlyRate, emi, month, tenureMonths);
      forall i :: 0 <= i < |rows| ==> rows[i].remainingBalance <= balance
    ensures var rows := Rows(balance, monthlyRate, emi, month, tenureMonths);
      forall i, j :: 0 <= i && j == i + 1 && j < |rows| ==> rows[j].remainingBalance <= rows[i].remainingBalance
    decreases if month <= tenureMonths then tenureMonths - month + 1 else 0
  {
    if month <= tenureMonths {
      RowsUnfold(balance, monthlyRate, emi, month, tenureMonths);
      var row := NextRow(balance, monthlyRate, emi, month);
      assert row.principalPaid >= 0.0;
      var next := row.remainingBalance;
      if next > 0.0 {
        var rows := Rows(balance, monthlyRate, emi, month, tenureMonths);
        var rest := Rows(next, monthlyRate, emi, month + 1, tenureMonths);
        MulMonotone(monthlyRate, balance, next);
        BalanceNeverIncreases(next, monthlyRate, emi, month + 1, tenureMonths);
        assert rows == [row] + rest;
        forall i | 1 <= i < |rows|
          ensures rows[i] == rest[i - 1]
        {
        }
      }
    }
  }

  /**
   * With a non-negative rate and a payment that covers the first month's
   * interest, the balance of the table of `calculateAmortizationSchedule`
   * never increases from one row to the next.
   */
  lemma ScheduleBalanceNeverIncreases(principal: real, annualRate: real, tenureMonths: int, emi: real)
    requires annualRate >= 0.0 && principal >= 0.0 && emi >= principal * annualRate / 1200.0
    ensures var s := AmortizationSchedule(principal, annualRate, tenureMonths, emi);
      forall i, j :: 0 <= i && j == i + 1 && j < |s| ==> s[j].remainingBalance <= s[i].remainingBalance
    ensures var s := AmortizationSchedule(principal, annualRate, tenureMonths, emi);
      forall i :: 0 <= i < |s| ==> s[i].remainingBalance <= principal
  {
    var monthlyRate := MonthlyRate(annualRate);
    assert principal * annualRate / 1200.0 == principal * monthlyRate;
    BalanceNeverIncreases(principal, monthlyRate, emi, 1, tenureMonths);
    assert AmortizationSchedule(principal, annualRate, tenureMonths, emi) == Rows(principal, monthlyRate, emi, 1, tenureMonths);
  }

  function SumPrincipalPaid(rows: seq<AmortizationRow>): real
  {
    if rows == [] then 0.0 else rows[0].principalPaid + SumPrincipalPaid(rows[1..])
  }

  function SumInterestPaid(rows: seq<AmortizationRow>): real
  {
    if rows == [] then 0.0 else rows[0].interestPaid + SumInterestPaid(rows[1..])
  }

  function SumPayments(rows: seq<AmortizationRow>): real
  {
    if rows == [] then 0.0 else rows[0].totalPayment + SumPayments(rows[1..])
  }

  /** The principal parts of a table add up to its opening balance less its closing balance. */
  lemma {:induction false} PrincipalPaidAddsUp(balance: real, monthlyRate: real, emi: real, month: int, tenureMonths: int)
    requires month <= tenureMonths
    ensures var rows := Rows(balance, monthlyRate, emi, month, tenureMonths);
      SumPrincipalPaid(rows) == balance - rows[|rows| - 1].remainingBalance
    decreases tenureMonths - month
  {
    RowsUnfold(balance, monthlyRate, emi, month, tenureMonths);
    var row := NextRow(balance, monthlyRate, emi, month);
    var rows := Rows(balance, monthlyRate, emi, month, tenureMonths);
    if row.remainingBalance > 0.0 && month < tenureMonths {
      var rest := Rows(row.remainingBalance, monthlyRate, emi, month + 1, tenureMonths);
      assert rows == [row] + rest;
      assert rows[1..] == rest;
      PrincipalPaidAddsUp(row.remainingBalance, monthlyRate, emi, month + 1, tenureMonths);
      assert rows[|rows| - 1] == rest[|rest| - 1];
    }
  }

  /** Where every payment is principal plus interest, the payments add up to principal plus interest. */
  lemma {:induction false} PaymentsAddUp(rows: seq<AmortizationRow>)
    requires forall i :: 0 <= i < |rows| ==> rows[i].totalPayment == rows[i].principalPaid + rows[i].interestPaid
    ensures SumPayments(rows) == SumPrincipalPaid(rows) + SumInterestPaid(rows)
  {
    if rows != [] {
      PaymentsAddUp(rows[1..]);
    }
  }

  /** `count` rows that all pay the same amount add up to that amount `count` times. */
  lemma {:induction false} EqualPaymentsAddUp(rows: seq<AmortizationRow>, payment: real, count: nat)
    requires |rows| == count
    requires forall i :: 0 <= i < |rows| ==> rows[i].totalPayment == payment
    ensures SumPayments(rows) == payment * count as real
  {
    if rows != [] {
      EqualPaymentsAddUp(rows[1..], payment, count - 1);
      assert payment * count as real == payment + payment * (count - 1) as real;
    }
  }

  /**
   * The outstanding balance after `k` full payments of `emi` on a loan of
   * `principal` at `monthlyRate`, each month adding interest and subtracting
   * the payment.
   */
  function Balance(principal: real, monthlyRate: real, emi: real, k: nat): real
  {
    if k == 0 then principal else Balance(principal, monthlyRate, emi, k - 1) * (1.0 + monthlyRate) - emi
  }

  /**
   * A month opening at `balance` closes at the reference balance one payment
   * later when that is positive, after a full payment of `emi`; otherwise it
   * closes at zero and pays only what was owed.
   */
  lemma NextRowAgainstBalance(balance: real, monthlyRate: real, emi: real, month: int)
    ensures var row := NextRow(balance, monthlyRate, emi, month);
      var next := balance * (1.0 + monthlyRate) - emi;
      && (next > 0.0 ==> row.remainingBalance == next && row.totalPayment == emi)
      && (next <= 0.0 ==> row.remainingBalance == 0.0 && row.totalPayment == emi + next)
  {
    var interest := balance * monthlyRate;
    assert balance * (1.0 + monthlyRate) == balance + interest;
  }

  /**
   * The first row of the table opening at the balance after `j` payments:
   * while the balance after `j + 1` payments is positive, the row pays `emi`,
   * closes at that balance and the table goes on from there; otherwise the
   * row pays off what is left, closes at zero and is the whole table.
   */
  lemma RowsOnBalanceStep(principal: real, monthlyRate: real, emi: real, j: nat, tenureMonths: int)
    requires j < tenureMonths
    ensures var rows := Rows(Balance(principal, monthlyRate, emi, j), monthlyRate, emi, j + 1, tenureMonths);
      var next := Balance(principal, monthlyRate, emi, j + 1);
      && |rows| >= 1
      && (next > 0.0 ==>
            && rows[0].totalPayment == emi && rows[0].remainingBalance == next
            && rows[1..] == Rows(next, monthlyRate, emi, j + 2, tenureMonths))
      && (next <= 0.0 ==>
            && |rows| == 1 && rows[0].remainingBalance == 0.0 && rows[0].totalPayment == emi + next)
  {
    var b := Balance(principal, monthlyRate, emi, j);
    assert Balance(principal, monthlyRate, emi, j + 1) == b * (1.0 + monthlyRate) - emi;
    RowsUnfold(b, monthlyRate, emi, j + 1, tenureMonths);
    NextRowAgainstBalance(b, monthlyRate, emi, j + 1);
  }

  /**
   * While the reference balance stays positive for payments `j + 1 .. last - 1`
   * and payment `last` clears it, the table opening at the balance after `j`
   * payments has exactly `last - j` rows: the early rows pay `emi` and close
   * at the reference balance, and the last row pays off what is left and
   * closes at zero.
   */
  lemma {:induction false} RowsTrackBalance(principal: real, monthlyRate: real, emi: real, j: nat, last: nat, tenureMonths: int)
    requires j < last <= tenureMonths
    requires forall k: nat :: j < k < last ==> Balance(principal, monthlyRate, emi, k) > 0.0
    requires Balance(principal, monthlyRate, emi, last) <= 0.0
    ensures var rows := Rows(Balance(principal, monthlyRate, emi, j), monthlyRate, emi, j + 1, tenureMonths);
      && |rows| == last - j
      && rows[|rows| - 1].remainingBalance == 0.0
      && rows[|rows| - 1].totalPayment == emi + Balance(principal, monthlyRate, emi, last)
      && forall i :: 0 <= i < |rows| - 1 ==>
           rows[i].totalPayment == emi && rows[i].remainingBalance == Balance(principal, monthlyRate, emi, j + i + 1)
    decreases last - j
  {
    RowsOnBalanceStep(principal, monthlyRate, emi, j, tenureMonths);
    if j + 1 < last {
      var rows := Rows(Balance(principal, monthlyRate, emi, j), monthlyRate, emi, j + 1, tenureMonths);
      var rest := Rows(Balance(principal, monthlyRate, emi, j + 1), monthlyRate, emi, j + 2, tenureMonths);
      RowsTrackBalance(principal, monthlyRate, emi, j + 1, last, tenureMonths);
      forall i | 1 <= i < |rows|
        ensures rows[i] == rest[i - 1]
      {
      }
    }
  }

  /**
   * While the reference balance stays positive through payment
   * `tenureMonths`, the table opening at the balance after `j` payments has
   * all `tenureMonths - j` rows, each paying `emi` and closing at the
   * positive reference balance for its month: the loan is not yet repaid.
   */
  lemma {:induction false} RowsStaySolvent(principal: real, monthlyRate: real, emi: real, j: nat, tenureMonths: nat)
    requires j < tenureMonths
    requires forall k: nat :: j < k <= tenureMonths ==> Balance(principal, monthlyRate, emi, k) > 0.0
    ensures var rows := Rows(Balance(principal, monthlyRate, emi, j), monthlyRate, emi, j + 1, tenureMonths);
      && |rows| == tenureMonths - j
      && rows[|rows| - 1].remainingBalance == Balance(principal, monthlyRate, emi, tenureMonths)
      && forall i :: 0 <= i < |rows| ==>
           rows[i].totalPayment == emi && rows[i].remainingBalance == Balance(principal, monthlyRate, emi, j + i + 1)
    decreases tenureMonths - j
  {
    RowsOnBalanceStep(principal, monthlyRate, emi, j, tenureMonths);
    if j + 1 < tenureMonths {
      var rows := Rows(Balance(principal, monthlyRate, emi, j), monthlyRate, emi, j + 1, tenureMonths);
      var rest := Rows(Balance(principal, monthlyRate, emi, j + 1), monthlyRate, emi, j + 2, tenureMonths);
      RowsStaySolvent(principal, monthlyRate, emi, j + 1, tenureMonths);
      forall i | 1 <= i < |rows|
        ensures rows[i] == rest[i - 1]
      {
      }
    } else {
      assert Rows(Balance(principal, monthlyRate, emi, j + 1), monthlyRate, emi, j + 2, tenureMonths) == [];
    }
  }

  /**
   * The closed form of the reference balance, multiplied through by the
   * monthly rate: `B(k) r = emi - (emi - principal r) (1 + r)^k`.
   */
  lemma {:induction false} BalanceTimesRate(principal: real, monthlyRate: real, emi: real, k: nat)
    ensures Balance(principal, monthlyRate, emi, k) * monthlyRate
            == emi - (emi - principal * monthlyRate) * Pow(1.0 + monthlyRate, k)
  {
    if k > 0 {
      BalanceTimesRate(principal, monthlyRate, emi, k - 1);
      BalanceTimesRateStep(principal, monthlyRate, emi, k);
    }
  }

  /** The step of `BalanceTimesRate` from `k - 1` payments to `k`. */
  lemma BalanceTimesRateStep(principal: real, monthlyRate: real, emi: real, k: nat)
    requires k > 0
    requires Balance(principal, monthlyRate, emi, k - 1) * monthlyRate
             == emi - (emi - principal * monthlyRate) * Pow(1.0 + monthlyRate, k - 1)
    ensures Balance(principal, monthlyRate, emi, k) * monthlyRate
            == emi - (emi - principal * monthlyRate) * Pow(1.0 + monthlyRate, k)
  {
    BalanceStep(Balance(principal, monthlyRate, emi, k - 1), monthlyRate, emi, emi - principal * monthlyRate,
                Pow(1.0 + monthlyRate, k - 1), Balance(principal, monthlyRate, emi, k), Pow(1.0 + monthlyRate, k));
  }

  /** The same step on plain numbers. */
  lemma BalanceStep(b: real, r: real, emi: real, c: real, q: real, b1: real, q1: real)
    requires b * r == emi - c * q
    requires b1 == b * (1.0 + r) - emi && q1 == (1.0 + r) * q
    ensures b1 * r == emi - c * q1
  {
    var br := b * r;
    assert b1 * r == br + br * r - emi * r;
    assert br * r == emi * r - c * q * r;
    assert c * q1 == c * q + c * q * r;
  }

  /** Without interest, the reference balance falls by the payment every month. */
  lemma {:induction false} BalanceAtZeroRate(principal: real, emi: real, k: nat)
    ensures Balance(principal, 0.0, emi, k) == principal - k as real * emi
  {
    if k > 0 {
      BalanceAtZeroRate(principal, emi, k - 1);
    }
  }

  /**
   * A payment that keeps the reference balance positive before month `n`
   * and clears it at month `n` gives a table of exactly `n` rows from
   * `principal`: each pays `emi` and the last closes at zero.
   */
  lemma ClearingPaymentSchedule(principal: real, monthlyRate: real, emi: real, n: nat)
    requires 0 < n
    requires forall k: nat :: 0 < k < n ==> Balance(principal, monthlyRate, emi, k) > 0.0
    requires Balance(principal, monthlyRate, emi, n) == 0.0
    ensures var s := Rows(principal, monthlyRate, emi, 1, n);
      && |s| == n
      && s[|s| - 1].remainingBalance == 0.0
      && (forall i :: 0 <= i < |s| ==> s[i].totalPayment == emi)
  {
    assert Balance(principal, monthlyRate, emi, 0) == principal;
    RowsTrackBalance(principal, monthlyRate, emi, 0, n, n);
    var s := Rows(principal, monthlyRate, emi, 1, n);
    forall i | 0 <= i < |s|
      ensures s[i].totalPayment == emi
    {
    }
  }

  /**
   * The rows of such a table add up to `n` payments, to the whole principal
   * in principal parts, and to the rest in interest.
   */
  lemma ClearingPaymentTotals(principal: real, monthlyRate: real, emi: real, n: nat)
    requires 0 < n
    requires forall k: nat :: 0 < k < n ==> Balance(principal, monthlyRate, emi, k) > 0.0
    requires Balance(principal, monthlyRate, emi, n) == 0.0
    ensures var s := Rows(principal, monthlyRate, emi, 1, n);
      && SumPayments(s) == emi * n as real
      && SumPrincipalPaid(s) == principal
      && SumInterestPaid(s) == emi * n as real - principal
  {
    var s := Rows(principal, monthlyRate, emi, 1, n);
    ClearingPaymentSchedule(principal, monthlyRate, emi, n);
    assert SumPayments(s) == emi * n as real by {
      EqualPaymentsAddUp(s, emi, n);
    }
    assert SumPrincipalPaid(s) == principal by {
      PrincipalPaidAddsUp(principal, monthlyRate, emi, 1, n);
    }
    assert SumPayments(s) == SumPrincipalPaid(s) + SumInterestPaid(s) by {
      RowsShape(principal, monthlyRate, emi, 1, n);
      PaymentsAddUp(s);
    }
  }
}
