/**
 * The calculator screen's state (App.tsx): the form inputs, the result the
 * engine last produced for them, and the saved-calculation history, newest
 * first and at most ten long. `performCalculation` picks the engine call
 * from the tab and the optimizer settings; saving, clearing and loading
 * are transitions on the history and the inputs.
 */
module App {
  import opened LoanTypes
  import opened RealMath
  import opened Amortization
  import opened Emi
  import opened RateSolver
  import opened Interest
  import opened TenureSolver

  /** The most entries the history keeps. */
  const HistoryLimit: nat := 10

  /** The form's inputs: everything `performCalculation` reads. */
  datatype Inputs = Inputs(
    activeTab: CalculatorType,
    optimizeMode: bool,
    optimizeTarget: OptimizeTarget,
    principal: real,
    interestRate: real,
    tenure: int,
    emiInput: real,
    targetEmi: real,
    interestType: InterestType)

  /** The inputs the screen starts with. */
  const DefaultInputs: Inputs := Inputs(Emi, false, Tenure, 10000.0, 18.0, 24, 1000.0, 1200.0, Compound)

  /** Whether an optional amount is truthy in JavaScript: present and not zero. */
  predicate Truthy(x: Option<real>)
  {
    x.Some? && x.value != 0.0
  }

  /** Whether an optional month count is truthy in JavaScript: present and not zero. */
  predicate TruthyMonths(x: Option<int>)
  {
    x.Some? && x.value != 0
  }

  /** Whether the inputs send the calculation to the tenure solver, which needs a positive rate. */
  predicate SolvesTenure(f: Inputs)
  {
    f.activeTab == Advanced || (f.activeTab == Emi && f.optimizeMode && f.optimizeTarget == Tenure)
  }

  /**
   * `performCalculation`: the engine call the inputs select. On the EMI tab
   * the optimizer either solves the tenure for the target EMI, or solves the
   * rate and reports the plan at that rate with the target as its monthly
   * payment, error or not.
   */
  function Dispatch(f: Inputs, ln: real -> real, pow: (real, real) -> real): (res: CalculationResult)
    requires IsLogarithm(ln)
    requires SolvesTenure(f) ==> f.interestRate > 0.0
    ensures f.activeTab == Emi && !f.optimizeMode ==> res == CalculateEmi(f.principal, f.interestRate, f.tenure)
    ensures f.activeTab == Emi && f.optimizeMode && f.optimizeTarget == Tenure ==>
      res == CalculateAdvanced(f.principal, f.interestRate, f.targetEmi, ln)
    ensures f.activeTab == Emi && f.optimizeMode && f.optimizeTarget == InterestRate ==>
      res == CalculateEmi(f.principal, RateForTargetEmi(f.principal, f.tenure, f.targetEmi), f.tenure).(monthlyPayment := Some(f.targetEmi))
    ensures f.activeTab == Interest ==> res == CalculateInterest(f.principal, f.interestRate, f.tenure, f.interestType, pow)
    ensures f.activeTab == Advanced ==> res == CalculateAdvanced(f.principal, f.interestRate, f.emiInput, ln)
  {
    match f.activeTab
    case Emi =>
      if !f.optimizeMode then CalculateEmi(f.principal, f.interestRate, f.tenure)
      else if f.optimizeTarget == Tenure then CalculateAdvanced(f.principal, f.interestRate, f.targetEmi, ln)
      else
        var plan := CalculateEmi(f.principal, RateForTargetEmi(f.principal, f.tenure, f.targetEmi), f.tenure);
        plan.(monthlyPayment := Some(f.targetEmi))
    case Interest => CalculateInterest(f.principal, f.interestRate, f.tenure, f.interestType, pow)
    case Advanced => CalculateAdvanced(f.principal, f.interestRate, f.emiInput, ln)
  }

  /** Whether `saveToHistory` keeps a result: one is present and it carries no error. */
  predicate Saveable(result: Option<CalculationResult>)
  {
    result.Some? && result.value.error.None?
  }

  /** The label a saved calculation is listed under. */
  function Caption(f: Inputs): string
  {
    if f.activeTab == Advanced then "Tenure Solve"
    else if f.activeTab == Emi then "EMI Plan"
    else InterestTypeName(f.interestType) + " Plan"
  }

  /**
   * The history entry for a result computed from `f`: a tenure solve records
   * the solved tenure as both its tenure and its result; the other tabs
   * record the form's tenure and the total amount. Interest calculations
   * record no EMI; the others record the result's monthly payment, or the
   * form's EMI when that payment is absent or zero.
   */
  function NewItem(id: string, timestamp: int, f: Inputs, res: CalculationResult): HistoryItem
  {
    HistoryItem(
      id, timestamp, f.activeTab, Caption(f), f.principal, f.interestRate,
      if f.activeTab == Advanced then res.tenureMonths else Some(f.tenure),
      if f.activeTab == Interest then None
      else Some(if Truthy(res.monthlyPayment) then res.monthlyPayment.value else f.emiInput),
      if f.activeTab == Advanced then (if res.tenureMonths.Some? then res.tenureMonths.value as real else 0.0)
      else res.totalAmount)
  }

  /**
   * The history after saving `item`: the item first, then the earlier
   * entries in their order, cut to the ten newest.
   */
  function Saved(history: seq<HistoryItem>, item: HistoryItem): (h: seq<HistoryItem>)
    ensures |h| == if |history| < HistoryLimit then |history| + 1 else HistoryLimit
    ensures h[0] == item
    ensures forall i :: 1 <= i < |h| ==> h[i] == history[i - 1]
  {
    var all := [item] + history;
    all[..if |all| < HistoryLimit then |all| else HistoryLimit]
  }

  /**
   * The inputs after loading `item` over `f`: its tab, principal and rate;
   * its tenure when it has a non-zero one, except that a tenure solve
   * instead restores its EMI (or 1000 without one); a non-zero EMI of any
   * other kind of entry; and the optimizer switched off.
   */
  function Loaded(f: Inputs, item: HistoryItem): (g: Inputs)
    ensures g.activeTab == item.kind && g.principal == item.principal && g.interestRate == item.rate
    ensures !g.optimizeMode
    ensures g.optimizeTarget == f.optimizeTarget && g.targetEmi == f.targetEmi && g.interestType == f.interestType
    ensures g.tenure == if TruthyMonths(item.tenure) && item.kind != Advanced then item.tenure.value else f.tenure
    ensures item.kind == Advanced && TruthyMonths(item.tenure) ==>
      g.emiInput == if Truthy(item.emi) then item.emi.value else 1000.0
    ensures item.kind == Advanced && !TruthyMonths(item.tenure) ==> g.emiInput == f.emiInput
    ensures item.kind != Advanced ==> g.emiInput == if Truthy(item.emi) then item.emi.value else f.emiInput
  {
    var withTenure :=
      if !TruthyMonths(item.tenure) then f
      else if item.kind == Advanced then f.(emiInput := if Truthy(item.emi) then item.emi.value else 1000.0)
      else f.(tenure := item.tenure.value);
    var withEmi := if Truthy(item.emi) && item.kind != Advanced then withTenure.(emiInput := item.emi.value) else withTenure;
    withEmi.(activeTab := item.kind, principal := item.principal, interestRate := item.rate, optimizeMode := false)
  }

  /**
   * In rate-optimize mode the reported monthly payment is always the target,
   * even on an error; the solved rate is never negative, so the plan fails
   * only for a non-positive principal or tenure, and otherwise is for the
   * form's principal and tenure.
   */
  lemma RateOptimizeReportsTarget(f: Inputs, ln: real -> real, pow: (real, real) -> real)
    requires IsLogarithm(ln)
    requires f.activeTab == Emi && f.optimizeMode && f.optimizeTarget == InterestRate
    ensures var res := Dispatch(f, ln, pow);
      && res.monthlyPayment == Some(f.targetEmi)
      && (res.error.Some? <==> f.principal <= 0.0 || f.tenure <= 0)
      && (res.error.None? ==> res.principal == f.principal && res.tenureMonths == Some(f.tenure))
  {
    var rate := RateForTargetEmi(f.principal, f.tenure, f.targetEmi);
    assert rate >= 0.0;
  }

  /**
   * Saving a successful calculation made without the optimizer and loading
   * the saved entry back makes the form compute the same result again,
   * whatever it held in between, provided an interest calculation is
   * reloaded under the same interest type (the entry does not record it)
   * and over a non-zero tenure, and a tenure solve is for a positive
   * principal (so that its solved tenure is non-zero).
   */
  lemma ReloadReproducesResult(f: Inputs, g: Inputs, id: string, timestamp: int,
                               ln: real -> real, pow: (real, real) -> real)
    requires IsLogarithm(ln)
    requires !f.optimizeMode
    requires f.activeTab == Advanced ==> f.interestRate > 0.0 && f.principal > 0.0
    requires f.activeTab == Interest ==> f.tenure != 0 && g.interestType == f.interestType
    requires Dispatch(f, ln, pow).error.None?
    ensures var h := Loaded(g, NewItem(id, timestamp, f, Dispatch(f, ln, pow)));
      && (SolvesTenure(h) ==> h.interestRate > 0.0)
      && Dispatch(h, ln, pow) == Dispatch(f, ln, pow)
  {
    var res := Dispatch(f, ln, pow);
    var item := NewItem(id, timestamp, f, res);
    var h := Loaded(g, item);
    match f.activeTab
    case Emi =>
      assert f.tenure > 0;
      assert h.tenure == f.tenure;
    case Interest =>
      assert h.tenure == f.tenure;
    case Advanced =>
      ReloadTenureSolve(f, g, id, timestamp, ln);
  }

  /**
   * An entry saved with the optimizer on records the form's rate and
   * tenure, not the solved ones, and loading it switches the optimizer off:
   * the reloaded form computes the plain plan at the form's rate over the
   * form's tenure, whichever optimization produced the saved result.
   */
  lemma OptimizedReloadIsPlainPlan(f: Inputs, g: Inputs, id: string, timestamp: int,
                                   ln: real -> real, pow: (real, real) -> real)
    requires IsLogarithm(ln)
    requires f.activeTab == Emi && f.optimizeMode && f.tenure != 0
    requires f.optimizeTarget == Tenure ==> f.interestRate > 0.0
    ensures var h := Loaded(g, NewItem(id, timestamp, f, Dispatch(f, ln, pow)));
      && !SolvesTenure(h)
      && Dispatch(h, ln, pow) == CalculateEmi(f.principal, f.interestRate, f.tenure)
  {
  }

  /**
   * So a rate-optimized save does not reload to what it showed: for 1200
   * over 12 months at a form rate of 0 and a target of 200, the saved result
   * reports a monthly payment of 200, and the reloaded form reports 100.
   */
  lemma RateOptimizedReloadDiffers(g: Inputs, id: string, timestamp: int,
                                   ln: real -> real, pow: (real, real) -> real)
    requires IsLogarithm(ln)
    ensures var f := Inputs(Emi, true, InterestRate, 1200.0, 0.0, 12, 1000.0, 200.0, Compound);
      var saved := Dispatch(f, ln, pow);
      var reloaded := Dispatch(Loaded(g, NewItem(id, timestamp, f, saved)), ln, pow);
      && saved.error.None? && saved.monthlyPayment == Some(200.0)
      && reloaded.error.None? && reloaded.monthlyPayment == Some(100.0)
  {
    var f := Inputs(Emi, true, InterestRate, 1200.0, 0.0, 12, 1000.0, 200.0, Compound);
    RateOptimizeReportsTarget(f, ln, pow);
    OptimizedReloadIsPlainPlan(f, g, id, timestamp, ln, pow);
  }

  /** `ReloadReproducesResult` for a tenure solve: the entry records a non-zero tenure and the EMI. */
  lemma ReloadTenureSolve(f: Inputs, g: Inputs, id: string, timestamp: int, ln: real -> real)
    requires IsLogarithm(ln)
    requires f.activeTab == Advanced && f.interestRate > 0.0 && f.principal > 0.0
    requires CalculateAdvanced(f.principal, f.interestRate, f.emiInput, ln).error.None?
    ensures var h := Loaded(g, NewItem(id, timestamp, f, CalculateAdvanced(f.principal, f.interestRate, f.emiInput, ln)));
      h.activeTab == Advanced && h.principal == f.principal && h.interestRate == f.interestRate && h.emiInput == f.emiInput
  {
    var res := CalculateAdvanced(f.principal, f.interestRate, f.emiInput, ln);
    var item := NewItem(id, timestamp, f, res);
    assert f.emiInput > f.principal * MonthlyRate(f.interestRate);
    TenureIsLeastRepayingMonth(f.principal, f.interestRate, f.emiInput, ln);
    assert TruthyMonths(item.tenure);
    assert Truthy(item.emi) by {
      MulPositive(f.principal, MonthlyRate(f.interestRate));
    }
  }

  /** The calculator screen: its inputs, its current result and its history. */
  class Calculator {
    var activeTab: CalculatorType
    var optimizeMode: bool
    var optimizeTarget: OptimizeTarget
    var principal: real
    var interestRate: real
    var tenure: int
    var emiInput: real
    var targetEmi: real
    var interestType: InterestType
    var result: Option<CalculationResult>
    var history: seq<HistoryItem>

    /** `Math.log`, for the tenure solver. */
    const ln: real -> real
    /** `Math.pow` with a real exponent, for compound interest. */
    const pow: (real, real) -> real

    /** The inputs as one value. */
    function Form(): Inputs
      reads this
    {
      Inputs(activeTab, optimizeMode, optimizeTarget, principal, interestRate, tenure, emiInput, targetEmi, interestType)
    }

    /** The screen as it starts: default inputs, no result yet and an empty history. */
    constructor (ln: real -> real, pow: (real, real) -> real)
      ensures Form() == DefaultInputs && result.None? && history == []
      ensures this.ln == ln && this.pow == pow
    {
      activeTab, optimizeMode, optimizeTarget := Emi, false, Tenure;
      principal, interestRate, tenure := 10000.0, 18.0, 24;
      emiInput, targetEmi, interestType := 1000.0, 1200.0, Compound;
      result, history := None, [];
      this.ln, this.pow := ln, pow;
    }

    /** `performCalculation`: replace the result with the one the inputs select. */
    method PerformCalculation()
      requires IsLogarithm(ln)
      requires SolvesTenure(Form()) ==> interestRate > 0.0
      modifies this
      ensures result == Some(Dispatch(old(Form()), ln, pow))
      ensures Form() == old(Form()) && history == old(history)
    {
      var res: CalculationResult;
      if activeTab == Emi {
        if optimizeMode {
          if optimizeTarget == Tenure {
            res := CalculateAdvanced(principal, interestRate, targetEmi, ln);
          } else {
            var calculatedRate := CalculateRateForTargetEmi(principal, tenure, targetEmi);
            res := CalculateEmi(principal, calculatedRate, tenure);
            res := res.(monthlyPayment := Some(targetEmi));
          }
        } else {
          res := CalculateEmi(principal, interestRate, tenure);
        }
      } else if activeTab == Interest {
        res := CalculateInterest(principal, interestRate, tenure, interestType, pow);
      } else {
        res := CalculateAdvanced(principal, interestRate, emiInput, ln);
      }
      result := Some(res);
    }

    /**
     * `saveToHistory`: record the current result, computed from the current
     * inputs, as the newest entry; nothing changes without a result or when
     * it carries an error.
     */
    method SaveToHistory(id: string, timestamp: int)
      modifies this
      ensures Form() == old(Form()) && result == old(result)
      ensures !Saveable(old(result)) ==> history == old(history)
      ensures Saveable(old(result)) ==>
        history == Saved(old(history), NewItem(id, timestamp, old(Form()), old(result).value))
    {
      if result.None? || result.value.error.Some? {
        return;
      }
      var item := NewItem(id, timestamp, Form(), result.value);
      var updated := [item] + history;
      history := updated[..if |updated| < HistoryLimit then |updated| else HistoryLimit];
    }

    /** `clearHistory`: forget every saved calculation. */
    method ClearHistory()
      modifies this
      ensures history == []
      ensures Form() == old(Form()) && result == old(result)
    {
      history := [];
    }

    /** `loadFromHistory`: put a saved calculation's inputs back into the form. */
    method LoadFromHistory(item: HistoryItem)
      modifies this
      ensures Form() == Loaded(old(Form()), item)
      ensures result == old(result) && history == old(history)
    {
      activeTab := item.kind;
      principal := item.principal;
      interestRate := item.rate;
      if TruthyMonths(item.tenure) {
        if item.kind == Advanced {
          emiInput := if Truthy(item.emi) then item.emi.value else 1000.0;
        } else {
          tenure := item.tenure.value;
        }
      }
      if Truthy(item.emi) && item.kind != Advanced {
        emiInput := item.emi.value;
      }
      optimizeMode := false;
    }
  }
}
