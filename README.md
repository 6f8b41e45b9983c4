# Loan amortization calculator — a Dafny model

This project models the arithmetic of a small loan amortization calculator,
Morgage (`Main.py`). The calculator does three things:

- It computes the fixed monthly payment of a fully amortising loan (`cuota`).
- It builds the month-by-month amortization schedule (`calculate_amortization_schedule`).
  Each row posts interest on the outstanding balance, posts the rest of the payment as
  principal, and stores the new balance rounded to cents. The schedule also reports the
  totals of the interest and repayment columns.
- It plans an early payoff five years before the end of the loan: the monthly deposit
  (`savings`) that saves up the balance still owed then, and a recommendation that
  compares the savings rate with the loan rate.

Everything is modelled over exact `real` arithmetic. `round(x, 2)` is the separate
function `Money.Round2`, and `int(x)` is `Money.Trunc`. The files are:

- `Money.dfy`: rounding to cents and truncation to whole numbers.
- `Annuity.dfy`: the payment and savings formulas, compounding and the geometric series.
  It also proves the two annuity identities: the exact balance driven by the payment ends
  at zero, and the savings deposits grow to their target.
- `Schedule.dfy`: the schedule. A recursive specification (`RowsUpTo`, `BalanceAfter`)
  defines it, and a loop (`PostPeriods`) builds it and is proved equal to that
  specification. It also proves facts about rows, columns, totals and how far rounding
  drifts.
- `EarlyPayoff.dfy`: the early-payoff plan. The calculator computes it inline in its
  `main`; here it is a function over the schedule's rows.

Some behaviour a reader might expect of such a calculator is not in its code, and the
model follows the code:

- **Zero rate.** There is no special case for a zero rate. With a rate of 0, `cuota`
  and `savings` divide by zero, and the input sliders never allow it. The model
  therefore requires a positive rate.
- **Invalid input.** There is no invalid-terms error. The computation functions do not
  check the amount; the input widget (line 42) keeps it between 1000 and 10 000 000.
  The model accepts any real amount.
- **Final balance.** The code does not ensure that the last balance is within one cent
  of zero. What it does ensure is the bound of `FinalBalanceNearZero`: half a cent of
  rounding per month, compounded at the loan rate.
- **Totals.** The column totals reconcile only within the rounding of each row: a cent
  per row between the Principal total and the amount repaid, and a cent and a half per
  row between the Repayment total and the other two totals (`ColumnsReconcile`).
- **The plan's window.** The plan takes the balance left after period n − 59, where n
  is the number of periods. That row is 60 rows from the end, and 59 payments still
  follow it.

## Model

| member | source | states |
|---|---|---|
| Money.Round2 | Main.py:21 | rounding to cents moves a figure by more than −0.005 and at most +0.005 |
| Money.Round2Cents | Main.py:21 | a rounded figure is a whole number of cents, and a figure already in cents is left alone |
| Money.Trunc | Main.py:77 | `int` on a float truncates toward zero: the floor of a non-negative value and the ceiling of a negative one |
| Annuity.MonthlyRate | Main.py:6 | the monthly rate is the annual rate spread over twelve months (12 · r is the annual rate), and it is positive exactly when the annual rate is; the same division appears at lines 13 and 32 |
| Annuity.NumPayments | Main.py:7 | the number of payments is a whole multiple of twelve, twelve per year of the term |
| Annuity.Pow | Main.py:8 | `**` with a whole exponent: x multiplied by itself k times (also line 33); Bernoulli and PowAtLeastOnePeriod bound it |
| Annuity.Compound | Main.py:18-20 | the unrounded balance after k periods: each period adds interest at r and then the flow (a repayment is a negative flow, as at line 19; a savings deposit a positive one) |
| Annuity.Cuota | Main.py:5-9 | the payment satisfies c · ((1+r)^n − 1) = amount · r · (1+r)^n; for a positive amount it is above one month's interest amount · r and at most amount · (1+r) |
| Annuity.Bernoulli | Main.py:8 | (1+r)^k ≥ 1 + k·r for r ≥ 0, which keeps the denominator of the payment formula non-zero |
| Annuity.CompoundClosedForm | Main.py:18-20 | the balance after k periods of charging interest at r and adding a flow has the closed form r · start · (1+r)^k + flow · ((1+r)^k − 1), up to the factor r |
| Annuity.CuotaRetiresLoan | Main.py:17-20 | without rounding, repeating b := b − (c − b·r) for n periods from the amount, with c the payment, ends at exactly zero |
| Annuity.Savings | Main.py:31-34 | the deposit satisfies s · ((1+m)^period − 1) = amount · m; for a non-negative target it is non-negative and period deposits of it never exceed the target |
| Annuity.SavingsReachTarget | Main.py:31-34 | period end-of-month deposits of the savings figure, compounding monthly, reach exactly the target |
| Annuity.DepositsSum | Main.py:33 | the sum of s·(1+m)^j over j < k: k end-of-month deposits, each grown for the months after it is paid |
| Annuity.DepositsSumShift | Main.py:33 | k + 1 grown deposits are one fresh deposit plus the k earlier ones grown one more month |
| Annuity.CompoundIsDepositsSum | Main.py:31-34 | the month-by-month savings balance from nothing and the sum of the grown deposits are the same figure, for every rate |
| Annuity.SavingsDepositsSum | Main.py:31-34 | the sum over j < period of savings · (1+m)^j is exactly the target amount |
| Annuity.DepositComparedWithTarget | Main.py:31-34 | a deposit at most the savings figure reaches at most the target, and a larger deposit reaches beyond it |
| Schedule.NextBalance | Main.py:18-21 | the balance after one period: interest b·r accrues, the payment less that interest is taken off as principal, and the result is rounded to cents; NextBalanceNear and NextBalanceInCents state its bounds |
| Schedule.NextBalanceNear | Main.py:20-21 | the rounded balance after a posting is within half a cent of the unrounded b − (c − b·r) |
| Schedule.NextBalanceInCents | Main.py:21 | the balance after a posting is a whole number of cents |
| Schedule.BalanceAfter | Main.py:14-21 | the carried balance: the amount before the first period, then NextBalance once per period |
| Schedule.BalanceInCents | Main.py:20-21 | every balance the schedule has posted is a whole number of cents |
| Schedule.ScheduleRow | Main.py:18-23 | the row (a `Row` record of Period, Interest Paid, Principal, Balance, Repayment) appended for a period on balance b: the rounded interest b·r, the rounded principal c − b·r, the next balance and the rounded payment |
| Schedule.RowsUpTo | Main.py:17-23 | the specification of the schedule has k rows, and row i has period i + 1 |
| Schedule.RowAt | Main.py:17-23 | row i is the row posted for period i + 1 on the balance left after i periods |
| Schedule.InterestColumn | Main.py:27 | the Interest Paid column holds each row's rounded interest, in row order |
| Schedule.Sum | Main.py:27-28 | the sum of a column, adding the figures in row order |
| Schedule.PrincipalColumn | Main.py:23 | the Principal column holds each row's rounded principal, in row order |
| Schedule.ColumnsReconcile | Main.py:17-28 | after k rows, the Principal total is within k cents of the amount less the balance left, and the Repayment total is within 1.5·k cents of the Interest Paid total plus the Principal total |
| Schedule.RepaymentColumn | Main.py:28 | the Repayment column holds each row's rounded payment, in row order |
| Schedule.ConstantColumnSum | Main.py:28 | a column holding the same figure in every row sums to that figure times the number of rows |
| Schedule.PostPeriods | Main.py:17-23 | the loop appends, for periods 1 to n, exactly the rows of the recursive schedule specification, with the balance carried from row to row |
| Schedule.AmortizationSchedule | Main.py:11-29 | the schedule holds 12 · duration rows, and they are the specification's rows for the payment `cuota`; the totals are the sums of the Interest Paid and Repayment columns |
| Schedule.RepaymentColumnConstant | Main.py:15-28 | every row repays the same rounded payment, so the repayment total is n · Round2(payment) |
| Schedule.RowSplitsPayment | Main.py:18-23 | a row's interest and principal are the rounded split of the payment at the interest on the previous balance, and together they are within a cent of the payment; its balance is the next balance, within a cent of the previous balance less the row's principal |
| Schedule.RoundingDrift | Main.py:18-21 | after k periods the rounded balance is within a compounded half cent per period of the exact, unrounded balance |
| Schedule.FinalBalanceNearZero | Main.py:11-29 | the last row's balance is within that compounded rounding drift of zero |
| EarlyPayoff.Recommend | Main.py:86-89 | saving is recommended as beneficial exactly when the savings rate is strictly above the loan rate |
| EarlyPayoff.PlanEarlyPayoff | Main.py:72-77 | the outcome is a `Plan` (amount needed, months of saving, monthly deposit, recommendation) or `ScheduleTooShort`; a plan exists exactly when there are at least 60 rows; it saves up the balance of the row 60 from the end, over as many months as that row's period number (the row count less 59), with the truncated savings deposit; it is recommended exactly when the savings rate is above the loan rate |
| EarlyPayoff.LargestWholeDeposit | Main.py:77 | for a non-negative target, the truncated savings deposit is the largest whole deposit that does not overshoot the target |
| EarlyPayoff.RecurrentSavingsLargestWhole | Main.py:75-77 | the plan's monthly deposit is non-negative and is the largest whole deposit whose months of saving reach at most the amount needed |
| EarlyPayoff.PlanForSchedule | Main.py:72-76 | on a schedule of n rows, a plan exists exactly when n ≥ 60; it saves up the balance left after period n − 59, over n − 59 months |
| EarlyPayoff.PlanExactlyForFiveYearsOrMore | Main.py:45-74 | the calculator's own schedule, computed at the loan rate in percent divided by 100, has a plan exactly when the loan runs at least five years |

## Left out

- The Streamlit inputs and outputs (lines 37-49, 80-83 and 87-89) are left out. The
  rates, the duration and the amount are parameters. The two recommendation messages
  are the two values of `Recommendation`.
- The pandas DataFrame (line 25) is modelled as a sequence of `Row` records. Column
  sums are modelled as `Sum` over a column.
- The matplotlib and bar charts (lines 51-70 and 91-100) are left out.
- `total_saving_loan` (line 78) is not modelled. It does not parse because of an
  unbalanced parenthesis, and it reads an `"Interest"` column that the schedule does
  not have.
- Floating point is not modelled. `**` is exact (`Pow`). `round(x, 2)` rounds the exact
  value half-up, whereas Python rounds the binary double and breaks ties to even.
  Concrete figures that depend on float evaluation are not stated.
- Annuity.Cuota: requires a positive rate and at least one year. A rate of 0 divides by
  zero in the code, and the sliders allow 0.1 % to 20 % and 1 to 40 years. Negative
  rates, which the inputs never produce, are not modelled.
- Annuity.Savings: requires a positive rate and a period of at least one month. A rate
  of 0, or a period of 0, divides by zero in the code. The savings-rate slider starts at
  0.1 %, and the period taken from the schedule is at least 1.
- EarlyPayoff.PlanEarlyPayoff: requires rows numbered 1, 2, … in order, as every
  schedule's are. Without that, the period read from the row could be one that
  `savings` divides by zero on.
- Schedule.AmortizationSchedule: states the repayment total as the column sum. The
  value n · Round2(payment) is stated in `Schedule.RepaymentColumnConstant`.
- Schedule.FinalBalanceNearZero: bounds the last balance by the compounded rounding
  drift, not by one cent. The code does not round the final balance to zero.
