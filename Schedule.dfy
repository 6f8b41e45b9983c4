/**
 * The amortization schedule: one row per monthly period, each posting the
 * interest on the outstanding balance, the rest of the fixed payment as
 * principal, and the new balance rounded to cents, followed by the totals of
 * the interest and repayment columns.
 */
module Schedule {
  import opened Money
  import opened Annuity

  /** One row of the schedule: Period, Interest Paid, Principal, Balance, Repayment. */
  datatype Row = Row(period: int, interestPaid: real, principal: real, balance: real, repayment: real)

  /** The balance after one period: interest accrues, the payment is taken off, the result is rounded to cents. */
  function NextBalance(b: real, r: real, c: real): real
  {
    Round2(b - (c - b * r))
  }

  /** The rounded balance after k periods of the schedule that starts at `amount` and pays c each period. */
  function BalanceAfter(amount: real, r: real, c: real, k: nat): real
  {
    if k == 0 then amount else NextBalance(BalanceAfter(amount, r, c, k - 1), r, c)
  }

  /** The row posted for `period` when the balance before it is b. */
  function ScheduleRow(period: int, b: real, r: real, c: real): Row
  {
    Row(period, Round2(b * r), Round2(c - b * r), NextBalance(b, r, c), Round2(c))
  }

  /** The first k rows of the schedule: one row per period, numbered from 1 in order. */
  function RowsUpTo(amount: real, r: real, c: real, k: nat): (rows: seq<Row>)
    ensures |rows| == k
    ensures forall i :: 0 <= i < k ==> rows[i].period == i + 1
  {
    if k == 0 then []
    else RowsUpTo(amount, r, c, k - 1) + [ScheduleRow(k, BalanceAfter(amount, r, c, k - 1), r, c)]
  }

  /** Row i of the schedule is the row posted for period i + 1 on the balance left after i periods. */
  lemma {:induction false} RowAt(amount: real, r: real, c: real, k: nat, i: nat)
    requires i < k
    ensures RowsUpTo(amount, r, c, k)[i] == ScheduleRow(i + 1, BalanceAfter(amount, r, c, i), r, c)
  {
    if i < k - 1 {
      RowAt(amount, r, c, k - 1, i);
    }
  }

  /** The sum of a column of figures. */
  function Sum(xs: seq<real>): real
  {
    if xs == [] then 0.0 else Sum(xs[..|xs| - 1]) + xs[|xs| - 1]
  }

  /** The Interest Paid column. */
  function InterestColumn(rows: seq<Row>): (col: seq<real>)
    ensures |col| == |rows|
    ensures forall i :: 0 <= i < |rows| ==> col[i] == rows[i].interestPaid
  {
    seq(|rows|, i requires 0 <= i < |rows| => rows[i].interestPaid)
  }

  /** The Principal column. */
  function PrincipalColumn(rows: seq<Row>): (col: seq<real>)
    ensures |col| == |rows|
    ensures forall i :: 0 <= i < |rows| ==> col[i] == rows[i].principal
  {
    seq(|rows|, i requires 0 <= i < |rows| => rows[i].principal)
  }

  /** The Repayment column. */
  function RepaymentColumn(rows: seq<Row>): (col: seq<real>)
    ensures |col| == |rows|
    ensures forall i :: 0 <= i < |rows| ==> col[i] == rows[i].repayment
  {
    seq(|rows|, i requires 0 <= i < |rows| => rows[i].repayment)
  }

  /** A column holding one figure v in every row sums to v times the number of rows. */
  lemma {:induction false} ConstantColumnSum(xs: seq<real>, v: real)
    requires forall i :: 0 <= i < |xs| ==> xs[i] == v
    ensures Sum(xs) == |xs| as real * v
  {
    if xs != [] {
      ConstantColumnSum(xs[..|xs| - 1], v);
    }
  }

  /** One more period of the schedule: one more row, and the balance it leaves. */
  lemma ScheduleStep(amount: real, r: real, c: real, k: nat)
    requires k > 0
    ensures RowsUpTo(amount, r, c, k) == RowsUpTo(amount, r, c, k - 1) + [ScheduleRow(k, BalanceAfter(amount, r, c, k - 1), r, c)]
    ensures BalanceAfter(amount, r, c, k) == NextBalance(BalanceAfter(amount, r, c, k - 1), r, c)
  {
  }

  /**
   * calculate_amortization_schedule: the rows of the schedule of a loan of
   * `amount` over `duration` years at annual rate `interestRate` (a fraction),
   * with the totals of the interest and repayment columns. There is one row
   * per month, the rows are those of RowsUpTo for the fixed payment Cuota,
   * and the totals are the sums of the two columns (RepaymentColumnConstant
   * gives the repayment total as the number of months times the rounded
   * payment).
   */
  method AmortizationSchedule(interestRate: real, duration: int, amount: real)
    returns (rows: seq<Row>, totalInterestPaid: real, totalRepayment: real)
    requires interestRate > 0.0 && duration >= 1
    ensures rows == RowsUpTo(amount, MonthlyRate(interestRate), Cuota(interestRate, duration, amount), NumPayments(duration))
    ensures |rows| == NumPayments(duration)
    ensures totalInterestPaid == Sum(InterestColumn(rows))
    ensures totalRepayment == Sum(RepaymentColumn(rows))
  {
    var monthlyRate := interestRate / 12.0;
    var repayment := Cuota(interestRate, duration, amount);
    var months := duration * 12;
    assert monthlyRate == MonthlyRate(interestRate) && months == NumPayments(duration);
    rows := PostPeriods(amount, monthlyRate, repayment, months);
    totalInterestPaid := Sum(InterestColumn(rows));
    totalRepayment := Sum(RepaymentColumn(rows));
  }

  /**
   * The loop of calculate_amortization_schedule: for each period from 1 to
   * `months`, charge interest on the balance, take the rest of the payment
   * off it as principal, round the new balance to cents and append the row.
   */
  method PostPeriods(amount: real, monthlyRate: real, repayment: real, months: int) returns (rows: seq<Row>)
    requires months >= 0
    ensures rows == RowsUpTo(amount, monthlyRate, repayment, months)
  {
    rows := [];
    var balance := amount;
    for period := 1 to months + 1
      invariant rows == RowsUpTo(amount, monthlyRate, repayment, period - 1)
      invariant balance == BalanceAfter(amount, monthlyRate, repayment, period - 1)
    {
      ScheduleStep(amount, monthlyRate, repayment, period);
      var interestPaid := balance * monthlyRate;
      var principalPaid := repayment - interestPaid;
      PostingIsScheduleRow(period, balance, monthlyRate, repayment, interestPaid, principalPaid);
      balance := balance - principalPaid;
      balance := Round2(balance);
      rows := rows + [Row(period, Round2(interestPaid), Round2(principalPaid), balance, Round2(repayment))];
    }
  }

  /** The figures the loop posts for one period are those of ScheduleRow. */
  lemma PostingIsScheduleRow(period: int, b: real, r: real, c: real, interestPaid: real, principalPaid: real)
    requires interestPaid == b * r && principalPaid == c - interestPaid
    ensures Round2(b - principalPaid) == NextBalance(b, r, c)
    ensures Row(period, Round2(interestPaid), Round2(principalPaid), Round2(b - principalPaid), Round2(c)) == ScheduleRow(period, b, r, c)
  {
  }

  /** Every row repays the same rounded payment, so the Repayment column sums to k times it. */
  lemma RepaymentColumnConstant(amount: real, r: real, c: real, k: nat)
    ensures Sum(RepaymentColumn(RowsUpTo(amount, r, c, k))) == k as real * Round2(c)
  {
    var rows := RowsUpTo(amount, r, c, k);
    forall i | 0 <= i < k
      ensures RepaymentColumn(rows)[i] == Round2(c)
    {
      RowAt(amount, r, c, k, i);
    }
    ConstantColumnSum(RepaymentColumn(rows), Round2(c));
  }

  /**
   * Each row's interest and principal are the rounded halves of the payment
   * c split at the interest on the balance before it, so together they differ
   * from c by at most a cent; and the row's balance is within a cent of the
   * previous balance less the row's principal.
   */
  lemma RowSplitsPayment(amount: real, r: real, c: real, k: nat, i: nat)
    requires i < k
    ensures var row := RowsUpTo(amount, r, c, k)[i];
      var before := BalanceAfter(amount, r, c, i);
      && row.interestPaid == Round2(before * r)
      && row.principal == Round2(c - before * r)
      && row.balance == BalanceAfter(amount, r, c, i + 1)
      && -0.01 < row.interestPaid + row.principal - c <= 0.01
      && -0.01 < row.balance - (before - row.principal) <= 0.01
  {
    RowAt(amount, r, c, k, i);
    PostingBounds(BalanceAfter(amount, r, c, i), r, c);
  }

  /** The rounding bounds of one posting, for a balance b before it. */
  lemma PostingBounds(b: real, r: real, c: real)
    ensures -0.01 < Round2(b * r) + Round2(c - b * r) - c <= 0.01
    ensures -0.01 < NextBalance(b, r, c) - (b - Round2(c - b * r)) <= 0.01
  {
    var interest := b * r;
    SplitBounds(interest, Round2(interest), Round2(c - interest), NextBalance(b, r, c), b, c);
  }

  /** SplitBounds on plain reals: x is the exact interest, i, p and n the rounded interest, principal and balance. */
  lemma SplitBounds(x: real, i: real, p: real, n: real, b: real, c: real)
    requires -HalfCent < i - x <= HalfCent
    requires -HalfCent < p - (c - x) <= HalfCent
    requires -HalfCent < n - (b - (c - x)) <= HalfCent
    ensures -0.01 < i + p - c <= 0.01
    ensures -0.01 < n - (b - p) <= 0.01
  {
  }

  /** The rounded balance after one period is within half a cent of the unrounded one. */
  lemma NextBalanceNear(b: real, r: real, c: real)
    ensures -HalfCent < NextBalance(b, r, c) - (b - (c - b * r)) <= HalfCent
  {
  }

  /**
   * The rows' balances drift from the exact, unrounded balance by no more
   * than half a cent per period compounded at the loan rate: the amount an
   * account would reach from deposits of 0.005 each period.
   */
  lemma {:induction false} RoundingDrift(amount: real, r: real, c: real, k: nat)
    requires r >= 0.0
    ensures -Compound(0.0, r, HalfCent, k) <= BalanceAfter(amount, r, c, k) - Compound(amount, r, -c, k) <= Compound(0.0, r, HalfCent, k)
  {
    if k > 0 {
      var d := Compound(0.0, r, HalfCent, k - 1);
      var e := Compound(amount, r, -c, k - 1);
      CompoundStep(amount, r, -c, k);
      CompoundStep(0.0, r, HalfCent, k);
      assert Compound(amount, r, -c, k) == e + e * r + -c;
      assert Compound(0.0, r, HalfCent, k) == d + d * r + HalfCent;
      RoundingDrift(amount, r, c, k - 1);
      DriftPeriod(amount, r, c, k, d, e);
    }
  }

  /**
   * One period of RoundingDrift: if the rounded balance after k - 1 periods is
   * within d of e, the one after k periods is within d compounded one period
   * plus half a cent of e compounded one period less the payment.
   */
  lemma DriftPeriod(amount: real, r: real, c: real, k: nat, d: real, e: real)
    requires r >= 0.0 && k > 0
    requires -d <= BalanceAfter(amount, r, c, k - 1) - e <= d
    ensures -(d + d * r + HalfCent) <= BalanceAfter(amount, r, c, k) - (e + e * r + -c) <= d + d * r + HalfCent
  {
    var b := BalanceAfter(amount, r, c, k - 1);
    NextBalanceNear(b, r, c);
    DriftStep(b, e, d, BalanceAfter(amount, r, c, k), e + e * r + -c, d + d * r + HalfCent, r, c);
  }

  /**
   * One period of RoundingDrift, on plain reals: b is the rounded balance, e the
   * exact one, d the bound so far, and b', e', d' the same one period later.
   */
  lemma DriftStep(b: real, e: real, d: real, b': real, e': real, d': real, r: real, c: real)
    requires r >= 0.0 && -d <= b - e <= d
    requires -HalfCent < b' - (b - (c - b * r)) <= HalfCent
    requires e' == e + e * r + -c && d' == d + d * r + HalfCent
    ensures -d' <= b' - e' <= d'
  {
    GrowthBound(b - e, d, r);
    assert (b - e) + (b - e) * r == (b + b * r) - (e + e * r);
  }

  /** A difference within d of zero stays within d grown by r after growing by r. */
  lemma GrowthBound(x: real, d: real, r: real)
    requires r >= 0.0 && -d <= x <= d
    ensures -(d + d * r) <= x + x * r <= d + d * r
  {
    MulMonotone(x, d, r);
    MulMonotone(-d, x, r);
    assert r * x == x * r && r * d == d * r && r * -d == -(d * r);
  }

  /** A balance the schedule has posted is a whole number of cents. */
  lemma BalanceInCents(amount: real, r: real, c: real, k: nat)
    requires k > 0
    ensures IsCents(BalanceAfter(amount, r, c, k))
  {
    ScheduleStep(amount, r, c, k);
    NextBalanceInCents(BalanceAfter(amount, r, c, k - 1), r, c);
  }

  /** The balance after one posting is a whole number of cents. */
  lemma NextBalanceInCents(b: real, r: real, c: real)
    ensures IsCents(NextBalance(b, r, c))
  {
    Round2Cents(b - (c - b * r));
  }

  /** Appending a figure to a column adds it to the column's sum. */
  lemma SumAppend(xs: seq<real>, v: real)
    ensures Sum(xs + [v]) == Sum(xs) + v
  {
    assert (xs + [v])[..|xs|] == xs;
  }

  /** Appending a row adds its interest, principal and repayment to the three column sums. */
  lemma ColumnSumsAppend(rows: seq<Row>, row: Row)
    ensures Sum(InterestColumn(rows + [row])) == Sum(InterestColumn(rows)) + row.interestPaid
    ensures Sum(PrincipalColumn(rows + [row])) == Sum(PrincipalColumn(rows)) + row.principal
    ensures Sum(RepaymentColumn(rows + [row])) == Sum(RepaymentColumn(rows)) + row.repayment
  {
    assert InterestColumn(rows + [row]) == InterestColumn(rows) + [row.interestPaid];
    assert PrincipalColumn(rows + [row]) == PrincipalColumn(rows) + [row.principal];
    assert RepaymentColumn(rows + [row]) == RepaymentColumn(rows) + [row.repayment];
    SumAppend(InterestColumn(rows), row.interestPaid);
    SumAppend(PrincipalColumn(rows), row.principal);
    SumAppend(RepaymentColumn(rows), row.repayment);
  }

  /**
   * The column totals of the first k rows reconcile within the rounding of
   * each row: the Principal column sums to the amount less the balance left,
   * within a cent per row, and the Repayment total is the Interest Paid total
   * plus the Principal total, within a cent and a half per row.
   */
  lemma {:induction false} ColumnsReconcile(amount: real, r: real, c: real, k: nat)
    ensures -0.01 * k as real <= Sum(PrincipalColumn(RowsUpTo(amount, r, c, k))) - (amount - BalanceAfter(amount, r, c, k)) <= 0.01 * k as real
    ensures -0.015 * k as real
            <= Sum(RepaymentColumn(RowsUpTo(amount, r, c, k))) - Sum(InterestColumn(RowsUpTo(amount, r, c, k))) - Sum(PrincipalColumn(RowsUpTo(amount, r, c, k)))
            <= 0.015 * k as real
  {
    if k > 0 {
      ColumnsReconcile(amount, r, c, k - 1);
      ReconcilePeriod(amount, r, c, k);
    }
  }

  /** One period of ColumnsReconcile: the bounds after k - 1 rows give those after k rows. */
  lemma ReconcilePeriod(amount: real, r: real, c: real, k: nat)
    requires k > 0
    requires -0.01 * (k - 1) as real <= Sum(PrincipalColumn(RowsUpTo(amount, r, c, k - 1))) - (amount - BalanceAfter(amount, r, c, k - 1)) <= 0.01 * (k - 1) as real
    requires -0.015 * (k - 1) as real
            <= Sum(RepaymentColumn(RowsUpTo(amount, r, c, k - 1))) - Sum(InterestColumn(RowsUpTo(amount, r, c, k - 1))) - Sum(PrincipalColumn(RowsUpTo(amount, r, c, k - 1)))
            <= 0.015 * (k - 1) as real
    ensures -0.01 * k as real <= Sum(PrincipalColumn(RowsUpTo(amount, r, c, k))) - (amount - BalanceAfter(amount, r, c, k)) <= 0.01 * k as real
    ensures -0.015 * k as real
            <= Sum(RepaymentColumn(RowsUpTo(amount, r, c, k))) - Sum(InterestColumn(RowsUpTo(amount, r, c, k))) - Sum(PrincipalColumn(RowsUpTo(amount, r, c, k)))
            <= 0.015 * k as real
  {
    var before := BalanceAfter(amount, r, c, k - 1);
    var rows := RowsUpTo(amount, r, c, k - 1);
    var row := ScheduleRow(k, before, r, c);
    ScheduleStep(amount, r, c, k);
    ColumnSumsAppend(rows, row);
    PostingBounds(before, r, c);
    ReconcileStep((k - 1) as real, amount, before, row.interestPaid, row.principal, row.repayment, c, BalanceAfter(amount, r, c, k),
                  Sum(InterestColumn(rows)), Sum(PrincipalColumn(rows)), Sum(RepaymentColumn(rows)),
                  Sum(InterestColumn(RowsUpTo(amount, r, c, k))), Sum(PrincipalColumn(RowsUpTo(amount, r, c, k))),
                  Sum(RepaymentColumn(RowsUpTo(amount, r, c, k))));
  }

  /**
   * One row of ColumnsReconcile, on plain reals: j rows so far with totals
   * it, pt and rt and balance b; the next row posts interest i, principal p
   * and repayment rep and leaves balance b', giving totals it', pt' and rt'.
   */
  lemma ReconcileStep(j: real, amount: real, b: real, i: real, p: real, rep: real, c: real, b': real,
                      it: real, pt: real, rt: real, it': real, pt': real, rt': real)
    requires -0.01 * j <= pt - (amount - b) <= 0.01 * j
    requires -0.015 * j <= rt - it - pt <= 0.015 * j
    requires -0.01 < i + p - c <= 0.01 && -0.01 < b' - (b - p) <= 0.01 && -HalfCent < rep - c <= HalfCent
    requires it' == it + i && pt' == pt + p && rt' == rt + rep
    ensures -0.01 * (j + 1.0) <= pt' - (amount - b') <= 0.01 * (j + 1.0)
    ensures -0.015 * (j + 1.0) <= rt' - it' - pt' <= 0.015 * (j + 1.0)
  {
  }

  /**
   * The last row's balance is at most the compounded half-cent drift away
   * from zero, because the exact balance with payment Cuota is zero.
   */
  lemma FinalBalanceNearZero(interestRate: real, duration: int, amount: real)
    requires interestRate > 0.0 && duration >= 1
    ensures var r := MonthlyRate(interestRate);
      var last := BalanceAfter(amount, r, Cuota(interestRate, duration, amount), NumPayments(duration));
      -Compound(0.0, r, HalfCent, NumPayments(duration)) <= last <= Compound(0.0, r, HalfCent, NumPayments(duration))
  {
    CuotaRetiresLoan(interestRate, duration, amount);
    RoundingDrift(amount, MonthlyRate(interestRate), Cuota(interestRate, duration, amount), NumPayments(duration));
  }
}
