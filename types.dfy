/**
 * The records and enumerations shared by the loan engine and the calculator
 * screen (types.ts). Amounts are exact reals; the presentation-only `color`
 * of a breakdown entry is dropped.
 */
module LoanTypes {

  /** An optional field of a TypeScript record (`field?: T`). */
  datatype Option<T> = None | Some(value: T)

  /** Which calculator tab is active. */
  datatype CalculatorType = Emi | Interest | Advanced

  /** How `calculateInterest` grows the principal. */
  datatype InterestType = Simple | Compound | Reducing

  /** What the goal optimizer of the EMI tab solves for. */
  datatype OptimizeTarget = Tenure | InterestRate

  /** The string value of an `InterestType` member, as used in history labels. */
  function InterestTypeName(t: InterestType): string
  {
    match t
    case Simple => "SIMPLE"
    case Compound => "COMPOUND"
    case Reducing => "REDUCING"
  }

  /** One month of an amortization table. */
  datatype AmortizationRow = AmortizationRow(
    month: int,
    principalPaid: real,
    interestPaid: real,
    totalPayment: real,
    remainingBalance: real)

  /** One slice of the principal/interest breakdown. */
  datatype BreakdownEntry = BreakdownEntry(name: string, value: real)

  /** The record every engine operation returns. */
  datatype CalculationResult = CalculationResult(
    totalAmount: real,
    totalInterest: real,
    monthlyPayment: Option<real>,
    principal: real,
    tenureMonths: Option<int>,
    error: Option<string>,
    breakdown: seq<BreakdownEntry>,
    schedule: Option<seq<AmortizationRow>>)

  /** A saved calculation; `id` and `timestamp` come from the clock. */
  datatype HistoryItem = HistoryItem(
    id: string,
    timestamp: int,
    kind: CalculatorType,
    caption: string,  // the source's `label` (a reserved word here)
    principal: real,
    rate: real,
    tenure: Option<int>,
    emi: Option<real>,
    result: real)

  const InvalidTermsMessage: string := "Please enter positive values for all fields."

  // The duplicated word is the source's own message text.
  const EmiTooLowMessage: string := "EMI is too low. It must cover at least the monthly interest interest."

  /** The two-entry breakdown of a successful result. */
  function Breakdown(principal: real, interest: real): seq<BreakdownEntry>
  {
    [BreakdownEntry("Principal", principal), BreakdownEntry("Interest", interest)]
  }

  /** The record returned by a rejected calculation: zero totals, no breakdown. */
  function ErrorResult(principal: real, message: string): CalculationResult
  {
    CalculationResult(0.0, 0.0, None, principal, None, Some(message), [], None)
  }
}
