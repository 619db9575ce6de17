# Fincal loan engine, modelled in Dafny

Fincal is a loan calculator. Its engine (`utils.ts`) computes:

- the equated monthly instalment (EMI) of a loan, with its month-by-month amortization table;
- simple, compound and reducing-balance interest;
- the tenure a given EMI needs (the "tenure solve");
- the annual rate at which a loan's EMI meets a target (a 40-step bisection).

Its screen (`App.tsx`) picks the engine call from the active tab and the goal optimizer. It also keeps a history of at most ten saved calculations that can be loaded back into the form.

This project models that engine and that screen state over exact reals and proves what they promise:

- The table has at most `tenureMonths` rows, numbered from 1. It stops right after the first month that clears the balance, and its balance never rises.
- The EMI the engine reports repays the loan in exactly the requested months. The table's payments add up to the reported total, and its principal parts add up to the loan.
- A reducing balance never costs more than simple interest. Yearly compounding over whole years never costs less.
- The tenure-solve gate rejects exactly the EMIs that never repay the loan. The rounded-up tenure is the least number of months that does. Solving for the tenure at a plan's own EMI gives back the plan's tenure, total and table.
- The bisection halves its bracket 40 times, and the solved rate lies in [0, 500] on whole hundredths. A higher target never yields a lower rate.
- Saving puts the new entry first, keeps the earlier ones in order and cuts the list to ten. Loading back an entry saved without the goal optimizer makes the form compute the same result again. An interest entry must be loaded under the same interest type, which the entry does not record. An entry saved with the optimizer on does not reload to what it showed: it records the form's rate and tenure rather than the solved ones, and loading switches the optimizer off, so the form computes the plain EMI plan instead.

## Layout

| file | module | what it holds |
|---|---|---|
| `types.dfy` | `LoanTypes` | the records and enumerations of `types.ts`, the error messages, the error record |
| `real_math.dfy` | `RealMath` | `Pow`, `Ceil`, `toFixed(2)`, the facts assumed of a logarithm, Bernoulli's inequality |
| `amortization.dfy` | `Amortization` | `calculateAmortizationSchedule`: the row, the table, the loop, the closed-form balance |
| `emi.dfy` | `Emi` | `calculateEMI` and its repayment and interest bounds |
| `rate_solver.dfy` | `RateSolver` | `calculateRateForTargetEMI`: the bisection as a function and as the source's loop |
| `interest.dfy` | `Interest` | `calculateInterest` and its three branches |
| `tenure_solver.dfy` | `TenureSolver` | `calculateAdvanced`, the gate, and the least repaying month |
| `inversion.dfy` | `Inversion` | the tenure solve undoes the EMI calculation |
| `app.dfy` | `App` | `performCalculation`, `saveToHistory`, `clearHistory` and `loadFromHistory` on a `Calculator` class |

`Math.log` and the real-exponent `Math.pow` are passed in as the function parameters `ln` and `pow`.

- `ln` is constrained by `RealMath.IsLogarithm`: it is strictly increasing on the positives, and `ln(x^k) = k ln x`.
- `pow` is constrained by `Interest.AgreesOnWholePowers`: it is the repeated product at whole exponents.

`toFixed(2)` and `Math.ceil` are modelled exactly. The REDUCING branch of `calculateInterest` returns a fresh record with the EMI plan's totals but no monthly payment and no table. It is not the EMI plan's record itself.

## Model

| member | source | states |
|---|---|---|
| RealMath.Ceil | utils.ts:157 | the result is the least integer at or above its argument |
| RealMath.IntPow | utils.ts:95 | `(1 + r)^n` is positive for a positive base, and above 1 it is 1 exactly at a zero exponent, so the payment formula divides by zero only at a zero tenure |
| RealMath.ToFixed2 | utils.ts:101 | the result is a whole number of hundredths within half a hundredth of the argument, and not negative for a non-negative argument |
| RealMath.ToFixed2Monotone | utils.ts:101 | rounding to two decimals never reverses the order of two numbers |
| RealMath.ToFixed2StaysInRange | utils.ts:101 | rounding a number in [0, 500] stays in [0, 500] |
| Amortization.MonthlyRate | utils.ts:20 | the monthly rate is the annual percentage over 1200 |
| Amortization.NextRow | utils.ts:23-33 | one month's row: interest is the opening balance times the monthly rate, the principal part is at most the opening balance, the closing balance is the opening balance less the principal part and is never negative, and the payment is principal plus interest |
| Amortization.Rows | utils.ts:22-36 | the table from a month on is empty past the tenure and otherwise has between one row and the months left |
| Amortization.AmortizationSchedule | utils.ts:12-38 | the table has at most `tenureMonths` rows, and at least one for a positive tenure |
| Amortization.CalculateAmortizationSchedule | utils.ts:12-38 | the source's loop, pushing one row per month and stopping at a non-positive balance, returns exactly `AmortizationSchedule` |
| Amortization.ScheduleShape | utils.ts:22-36 | rows are numbered 1, 2, 3, … in order; every row but the last leaves a positive balance; a table that stops before the tenure ends at a zero balance |
| Amortization.ScheduleFollowsOpeningBalance | utils.ts:19-33 | row `k` is month `k + 1` and is computed from the balance it opens with (the principal for the first row, the previous row's closing balance after that): interest at `annualRate / 1200` on it, a principal part of `min(emi - interest, opening)`, a closing balance of `max(0, opening - principal part)` and a payment of principal plus interest |
| Amortization.ScheduleBalanceNeverIncreases | utils.ts:23-25 | at a non-negative rate, with an EMI covering the first month's interest, the balance never rises from row to row and never exceeds the principal |
| Amortization.PrincipalPaidAddsUp | utils.ts:24-25 | the principal parts of a table add up to the opening balance less the last closing balance |
| Amortization.PaymentsAddUp | utils.ts:31 | the payments of a table add up to its principal parts plus its interest parts |
| Amortization.EqualPaymentsAddUp | utils.ts:31 | `count` equal payments add up to `count` times the payment |
| Amortization.BalanceTimesRate | utils.ts:23-25 | the balance after `k` full EMIs, times the rate, is `emi - (emi - P r)(1 + r)^k` |
| Amortization.BalanceAtZeroRate | utils.ts:23-25 | at a zero rate the balance after `k` full EMIs is `P - k emi` |
| Amortization.RowsTrackBalance | utils.ts:22-36 | when the balance after full EMIs stays positive until a month and is not positive there, the table ends exactly at that month with a zero balance: every earlier month pays the EMI, and the last pays what is left |
| Amortization.RowsStaySolvent | utils.ts:22-36 | while the balance stays positive, every row pays the full EMI and tracks that balance |
| Amortization.ClearingPaymentSchedule | utils.ts:22-36 | an EMI that clears the balance exactly at month `n` gives `n` rows, all paying that EMI, ending at zero |
| Amortization.ClearingPaymentTotals | utils.ts:22-36 | such a table pays `n` EMIs in all, repays exactly the principal, and charges the rest as interest |
| Emi.AmortizingPayment | utils.ts:69 | the level payment `P r x / (x - 1)` with `x = (1 + r)^n`, defined for a positive monthly rate and a non-zero tenure, the only case where the division is by zero being a zero tenure; what it means, clearing the loan at month `n`, is `AmortizingPaymentClearsBalance` |
| Emi.CalculateEmi | utils.ts:40-85 | the error record with the exact message, zero totals and an empty breakdown iff the principal or tenure is not positive or the rate is negative; otherwise the echoed principal and tenure, the two-entry breakdown and the table at the EMI; at rate 0 the EMI is principal over tenure with no interest; otherwise the level payment times the tenure as the total |
| Emi.AmortizingPaymentClearsBalance | utils.ts:69 | the level payment over `n` months leaves a positive balance before month `n` and exactly zero at month `n` |
| Emi.EvenSplitClearsBalance | utils.ts:53-54 | principal over tenure, paid monthly at rate 0, clears the loan exactly at the last month |
| Emi.EmiClearsBalance | utils.ts:53-69 | the EMI `calculateEMI` reports clears a valid loan exactly at its tenure |
| Emi.EmiScheduleRepaysLoan | utils.ts:65-83 | a valid plan's table has exactly `tenureMonths` rows, all paying the EMI, and ends at a zero balance |
| Emi.EmiScheduleAddsUp | utils.ts:69-83 | a valid plan's table pays the reported total, repays the principal, and charges the reported interest |
| Emi.AmortizingPaymentBounds | utils.ts:69-70 | the level payments add up to at least the principal and at most the principal plus simple interest on it |
| Emi.AmortizingPaymentCoversInterest | utils.ts:69 | the level payment exceeds the first month's interest |
| Emi.EmiInterestBounds | utils.ts:69-71 | a valid plan's interest is between zero and the simple interest over the tenure |
| Emi.EmiCoversFirstInterest | utils.ts:53-69 | a valid plan's EMI exceeds the first month's interest, so the tenure solve accepts it |
| RateSolver.EmiExceeds | utils.ts:93-97 | the midpoint test `emi > targetEMI` at a monthly rate, with the IEEE-754 outcomes of the formula: over a zero tenure the payment is an infinity of the principal's sign (NaN for a zero principal), so the test holds exactly for a positive principal; at a zero rate it is NaN and the test fails |
| RateSolver.EmiExceedsAntitone | utils.ts:95-97 | the midpoint test for a higher target holds only where the test for a lower target does |
| RateSolver.Bisect | utils.ts:92-100 | the final bracket lies inside the first; its lower end is the start or a rate where the payment does not exceed the target, and its upper end is the end or a rate where it does |
| RateSolver.BisectWidth | utils.ts:92-100 | after `k` halvings the bracket is `2^k` times narrower, so after 40 it is 500/2^40 wide |
| RateSolver.BisectLoop | utils.ts:92-100 | the source's while loop over `low`, `high` and `iterations` ends at `Bisect`'s bracket |
| RateSolver.RateForTargetEmi | utils.ts:87-102 | the solved rate lies in [0, 500] and is a whole number of hundredths |
| RateSolver.CalculateRateForTargetEmi | utils.ts:87-102 | the method returns `RateForTargetEmi`: 40 halvings of [0, 500], then the rounded lower end |
| RateSolver.BisectMonotone | utils.ts:97-98 | with a test that holds wherever a second one does, the search never ends in a higher bracket |
| RateSolver.RateForTargetEmiMonotone | utils.ts:87-102 | a higher target EMI never yields a lower solved rate |
| Interest.CalculateInterest | utils.ts:104-137 | SIMPLE and COMPOUND never set an error, a monthly payment or a table; each type gives its branch |
| Interest.SimpleInterest | utils.ts:112-116 | interest is `P rate t / 1200` for `t` months and the total is the principal plus it, in the interest-only record |
| Interest.CompoundInterest | utils.ts:117-119 | the total is the principal grown by `1 + rate/100` per year over `t/12` years, and the interest is the total less the principal |
| Interest.ReducingInterest | utils.ts:120-136 | the EMI plan's error record unchanged when it errors; otherwise a fresh record with only the plan's totals |
| Interest.ReducingInterestIsScheduleInterest | utils.ts:120-125 | on a valid loan the reducing-balance totals are what the EMI plan's table pays and charges |
| Interest.ReducingWithinSimple | utils.ts:114-125 | on a valid loan the reducing-balance interest is between zero and the simple interest |
| Interest.CompoundAtLeastSimple | utils.ts:114-119 | for a non-negative principal over whole years at a non-negative rate, yearly compounding yields at least the simple interest |
| Interest.CompoundMatchesSimpleOverOneYear | utils.ts:114-119 | over exactly twelve months the two totals agree |
| TenureSolver.MonthsNeeded | utils.ts:156 | the closed-form tenure `ln(emi / (emi - P r)) / ln(1 + r)`, defined where the gate passes at a positive rate, so both logarithms are of numbers above zero and the divisor is not zero |
| TenureSolver.CalculateAdvanced | utils.ts:139-173 | the "EMI is too low" record with zero totals and an empty breakdown iff the EMI is at most the first month's interest (equality too); otherwise a tenure `K` with `n <= K < n + 1` for the closed-form `n`, the EMI as monthly payment, `emi K` as total, the rest as interest, and the table over `K` months at that EMI |
| TenureSolver.TooLowEmiNeverRepays | utils.ts:146-154 | an EMI the gate rejects never brings a positive loan's balance below the principal |
| TenureSolver.BalancePositiveIff | utils.ts:156 | with an EMI above the first month's interest, the balance after `k` full EMIs is positive exactly when `k` is below the closed-form `n` |
| TenureSolver.TenureIsLeastRepayingMonth | utils.ts:156-157 | for a positive loan the gate accepts, the solved tenure is at least 1, leaves no positive balance, and every earlier month does |
| TenureSolver.WholeMonthsNeeded | utils.ts:156-157 | any whole number of months in `[n, n + 1)` is the least one that leaves no positive balance |
| TenureSolver.TenureScheduleRepaysLoan | utils.ts:157-171 | the table has exactly the solved tenure's rows, every month but the last pays the EMI, and the last pays at most the EMI and ends at zero |
| TenureSolver.TenureTotalsAgainstSchedule | utils.ts:158-171 | the table repays exactly the principal, and its payments fall short of the reported total by what the last month does not need |
| TenureSolver.SolvedAtWholeMonths | utils.ts:156-171 | when exactly `n` months are needed the solve reports `n` months, the EMI, `emi n` and the table over `n` months |
| Inversion.TenureSolveInvertsEmi | utils.ts:156-158 | at the level payment for `T` months the gate accepts, and the solve reports `T` months, that payment, `T` times it as the total, and the table over `T` months at it |
| Inversion.TenureSolveUndoesCalculateEmi | utils.ts:139-173 | for a valid loan at a positive rate, the tenure solve at the monthly payment `calculateEMI` reports returns `calculateEMI`'s whole record |
| Inversion.PlanPaymentNeedsItsTenure | utils.ts:156 | at the level payment for `n` months the closed form is exactly `n` |
| App.Dispatch | App.tsx:44-60 | the EMI tab without the optimizer calls `calculateEMI`; with it, either the tenure solve at the target EMI or the EMI plan at the solved rate with the target as monthly payment; the INTEREST tab calls `calculateInterest`; the ADVANCED tab calls the tenure solve at the EMI input |
| App.RateOptimizeReportsTarget | App.tsx:49-51 | in rate-optimize mode the monthly payment is the target even on an error; the plan fails exactly for a non-positive principal or tenure, since the solved rate is never negative |
| App.Saveable | App.tsx:70 | a result is saved only when one is present and carries no error |
| App.Caption | App.tsx:76 | the entry's label: "Tenure Solve" for the tenure tab, "EMI Plan" for the EMI tab, and the interest type's name followed by " Plan" for the interest tab |
| App.NewItem | App.tsx:72-82 | the saved entry: the tab, label, principal and form rate; the solved tenure for a tenure solve and the form's tenure otherwise; no EMI for an interest entry, else the result's monthly payment or the EMI input when that is absent or zero; the solved tenure (or 0) for a tenure solve and the total amount otherwise |
| App.Saved | App.tsx:84 | the new entry comes first, the earlier entries follow in their order, and the length is the old length plus one, capped at ten |
| App.Loaded | App.tsx:89-99 | the entry's tab, principal and rate; its non-zero tenure, except that a tenure solve instead sets the EMI input to its EMI or 1000 and keeps the tenure; a non-zero EMI of another kind of entry; the optimizer off; nothing else changes |
| App.ReloadReproducesResult | App.tsx:69-99 | saving a successful non-optimized calculation and loading the entry back, over any form, computes the same result again (an interest entry needs the same interest type and a non-zero tenure, and a tenure solve a positive principal) |
| App.OptimizedReloadIsPlainPlan | App.tsx:44-99 | an entry saved from the EMI tab with the optimizer on reloads, over any form, to `calculateEMI` at the form's rate and tenure it recorded, whatever the optimizer solved |
| App.RateOptimizedReloadDiffers | App.tsx:49-99 | a rate-optimized save of 1200 over 12 months at a form rate of 0 and a target of 200 reports a monthly payment of 200, and its reload reports 100 |
| App.ReloadTenureSolve | App.tsx:76-93 | a saved tenure solve records a non-zero tenure and its EMI, so loading it restores the tab, principal, rate and EMI input |
| App.Calculator.constructor | App.tsx:13-28 | the screen starts on the EMI tab, optimizer off and targeting the tenure, with 10000 principal, 18% rate, 24 months, 1000 EMI, 1200 target EMI and compound interest, no result and an empty history |
| App.Calculator.PerformCalculation | App.tsx:41-63 | the result becomes `Dispatch` of the inputs; inputs and history are unchanged |
| App.Calculator.SaveToHistory | App.tsx:69-87 | without a result or with an error the history is unchanged; otherwise it becomes `Saved` of the old history and the entry for the current inputs and result |
| App.Calculator.ClearHistory | App.tsx:109-112 | the history is empty, and nothing else changes |
| App.Calculator.LoadFromHistory | App.tsx:89-99 | the inputs become `Loaded` of the old inputs and the entry; result and history are unchanged |

`TenureSolver.TenureTotalsAgainstSchedule` shows that the total amount of a tenure solve counts a full EMI for the last month. The table's last payment is only what is left, so the table pays less than the reported total whenever the closed-form `n` is not a whole number.

## Left out

- `formatCurrency` (utils.ts:4-10) wraps `Intl.NumberFormat`, a library outside the model.
- IEEE-754 doubles. Amounts are exact reals, so there is no rounding error and no overflow. The rate solver's midpoint test models the NaN and Infinity outcomes of its formula. At a zero tenure that test compares an infinity of the principal's sign, or NaN for a zero principal. At a zero rate it compares 0/0 and fails. Below zero the model answers "not above", a rate the solver never tries. Elsewhere the source can also produce NaN, and there the model's value is left unconstrained rather than NaN:
  - `calculateAdvanced` takes the logarithm of `emi / (emi - P r)` (utils.ts:156), which is negative when a negative principal meets a negative EMI above its first month's interest. The model's `ln` says nothing at non-positive arguments, so its tenure there is unconstrained.
  - COMPOUND interest raises `1 + rate / 100` to `tenure / 12` (utils.ts:118). At a rate below -100 and a tenure that is not a whole number of years, that is a negative base to a fractional power, which is NaN. The model's `pow` is constrained only at whole exponents, so its total there is unconstrained.
- Fractional tenures. Tenures and month counts are integers. Any number can be typed into the form, but the table's loop and the month labels count whole months.
- `Math.log` and the real-exponent `Math.pow` are parameters. Only the facts `IsLogarithm` and `AgreesOnWholePowers` state are assumed of them. Nothing is assumed of `ln` at non-positive arguments.
- TenureSolver.CalculateAdvanced: requires a positive rate. At rate 0 the closed form is 0/0, and below zero the logarithm's argument can be negative.
- App.Dispatch: requires a positive rate when the inputs route to the tenure solve (the ADVANCED tab, or the EMI tab optimizing the tenure), as `CalculateAdvanced` does. The form's rate slider can be set to 0, and that case is not modelled.
- App.Calculator.PerformCalculation: requires a positive rate on the same tenure-solving routes, because its result is `Dispatch` of the inputs. A rate of 0 typed into the form is not modelled there. Nor does it model clearing the advice text.
- App.Calculator.SaveToHistory: does not model the `totalAmount === Infinity` guard, because exact reals have no infinity.
- React hooks, rendering and the advice request (`services/geminiService.ts`) are not modelled. Neither are the presentation components, whose only logic is display slicing and filtering. The recomputation a hook triggers after an input changes is stated as `App.ReloadReproducesResult`, on `Dispatch`.
- `localStorage` is not modelled: neither the load at start-up (App.tsx:30-39), nor the writes on save and clear (App.tsx:86, 111). `Date.now()` is passed in as the entry's `id` and `timestamp`.
- Amortization.ScheduleBalanceNeverIncreases: requires a non-negative principal for the bound by the principal. With a negative principal the first row already closes at zero, which is above the principal.
