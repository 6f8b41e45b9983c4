/**
 * The early-payoff plan shown under the schedule: the balance the loan still
 * has five years (60 monthly periods) before its end, the whole monthly
 * deposit that saves up to it, and whether saving instead of repaying looks
 * beneficial.
 */
module EarlyPayoff {
  import opened Money
  import opened Annuity
  import opened Schedule

  /** The number of monthly periods in the five years the plan pays off early. */
  const Window: int := 60

  datatype Recommendation = Beneficial | NotClearlyBeneficial

  /**
   * The plan: the balance to save up for, the number of months to save over,
   * the whole monthly deposit, and the recommendation.
   */
  datatype Plan = Plan(amountNeeded: real, periodSavings: int, recurrentSavings: int, recommendation: Recommendation)

  /** A schedule shorter than five years has no plan. */
  datatype Outcome = Planned(plan: Plan) | ScheduleTooShort

  /** The rows are numbered 1, 2, ... in order, as every schedule's are. */
  predicate NumberedInOrder(rows: seq<Row>)
  {
    forall i :: 0 <= i < |rows| ==> rows[i].period == i + 1
  }

  /** Saving is recommended exactly when the savings rate is strictly above the loan rate. */
  function Recommend(loanRatePercent: real, savingsRatePercent: real): (rec: Recommendation)
    ensures rec == Beneficial <==> savingsRatePercent > loanRatePercent
  {
    if savingsRatePercent > loanRatePercent then Beneficial else NotClearlyBeneficial
  }

  /**
   * The early-payoff branch of the calculator: with at least 60 rows, take the
   * row 60 from the end, save up its balance over as many months as its period
   * number at the savings rate, truncate the deposit to a whole number, and
   * compare the two rates (both in percent). With fewer rows there is no plan.
   */
  function PlanEarlyPayoff(rows: seq<Row>, loanRatePercent: real, savingsRatePercent: real): (o: Outcome)
    requires savingsRatePercent > 0.0 && NumberedInOrder(rows)
    ensures o.Planned? <==> |rows| >= Window
    ensures o.Planned? ==> o.plan.amountNeeded == rows[|rows| - Window].balance
    ensures o.Planned? ==> o.plan.periodSavings == |rows| - Window + 1
    ensures o.Planned? ==>
      o.plan.recurrentSavings == Trunc(Savings(o.plan.amountNeeded, o.plan.periodSavings, savingsRatePercent / 100.0))
    ensures o.Planned? ==> (o.plan.recommendation == Beneficial <==> savingsRatePercent > loanRatePercent)
  {
    if |rows| >= Window then
      var row := rows[|rows| - Window];
      var amountNeeded := row.balance;
      var periodSavings := row.period;
      var recurrentSavings := Trunc(Savings(amountNeeded, periodSavings, savingsRatePercent / 100.0));
      Planned(Plan(amountNeeded, periodSavings, recurrentSavings, Recommend(loanRatePercent, savingsRatePercent)))
    else
      ScheduleTooShort
  }

  /**
   * For a non-negative amount to save up, the plan's deposit is the largest
   * whole deposit that does not overshoot: paid every month it reaches at most
   * the amount, and one more per month would reach beyond it.
   */
  lemma RecurrentSavingsLargestWhole(rows: seq<Row>, loanRatePercent: real, savingsRatePercent: real)
    requires savingsRatePercent > 0.0 && NumberedInOrder(rows)
    requires PlanEarlyPayoff(rows, loanRatePercent, savingsRatePercent).Planned?
    requires PlanEarlyPayoff(rows, loanRatePercent, savingsRatePercent).plan.amountNeeded >= 0.0
    ensures var plan := PlanEarlyPayoff(rows, loanRatePercent, savingsRatePercent).plan;
      var m := MonthlyRate(savingsRatePercent / 100.0);
      && plan.recurrentSavings >= 0
      && Compound(0.0, m, plan.recurrentSavings as real, plan.periodSavings) <= plan.amountNeeded
      && Compound(0.0, m, plan.recurrentSavings as real + 1.0, plan.periodSavings) > plan.amountNeeded
  {
    var plan := PlanEarlyPayoff(rows, loanRatePercent, savingsRatePercent).plan;
    LargestWholeDeposit(plan.amountNeeded, plan.periodSavings, savingsRatePercent / 100.0, plan.recurrentSavings);
  }

  /** The truncated Savings deposit, for a non-negative target, is the largest whole deposit that does not overshoot. */
  lemma LargestWholeDeposit(amount: real, period: int, interest: real, deposit: int)
    requires interest > 0.0 && period >= 1 && amount >= 0.0
    requires deposit == Trunc(Savings(amount, period, interest))
    ensures deposit >= 0
    ensures Compound(0.0, MonthlyRate(interest), deposit as real, period) <= amount
    ensures Compound(0.0, MonthlyRate(interest), deposit as real + 1.0, period) > amount
  {
    var s := Savings(amount, period, interest);
    assert deposit as real <= s < deposit as real + 1.0;
    DepositComparedWithTarget(amount, period, interest, deposit as real);
    DepositComparedWithTarget(amount, period, interest, deposit as real + 1.0);
  }

  /**
   * On the calculator's own schedule of n = 12 * duration rows, the plan exists
   * exactly when the loan runs at least five years; it saves up the balance left
   * after period n - 59 over n - 59 months.
   */
  lemma PlanForSchedule(amount: real, r: real, c: real, n: nat, loanRatePercent: real, savingsRatePercent: real)
    requires savingsRatePercent > 0.0
    ensures NumberedInOrder(RowsUpTo(amount, r, c, n))
    ensures var o := PlanEarlyPayoff(RowsUpTo(amount, r, c, n), loanRatePercent, savingsRatePercent);
      && (o.Planned? <==> n >= Window)
      && (o.Planned? ==> o.plan.amountNeeded == BalanceAfter(amount, r, c, n - Window + 1))
      && (o.Planned? ==> o.plan.periodSavings == n - Window + 1)
  {
    var rows := RowsUpTo(amount, r, c, n);
    if n >= Window {
      RowAt(amount, r, c, n, n - Window);
    }
  }

  /**
   * A loan of `duration` years has an early-payoff plan exactly when it runs
   * at least five years. The schedule is computed at the loan rate as a
   * fraction, interestRate, and the plan compares the same rate in percent.
   */
  lemma PlanExactlyForFiveYearsOrMore(interestRate: real, duration: int, amount: real, loanRatePercent: real, savingsRatePercent: real)
    requires interestRate == loanRatePercent / 100.0
    requires interestRate > 0.0 && duration >= 1 && savingsRatePercent > 0.0
    ensures var rows := RowsUpTo(amount, MonthlyRate(interestRate), Cuota(interestRate, duration, amount), NumPayments(duration));
      NumberedInOrder(rows) && (PlanEarlyPayoff(rows, loanRatePercent, savingsRatePercent).Planned? <==> duration >= 5)
  {
    PlanForSchedule(amount, MonthlyRate(interestRate), Cuota(interestRate, duration, amount), NumPayments(duration), loanRatePercent, savingsRatePercent);
  }
}
