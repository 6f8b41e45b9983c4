/**
 * The two annuity formulas of the calculator, over exact reals: the fixed
 * monthly payment of a fully amortising loan (present value of an ordinary
 * annuity solved for the payment) and the monthly deposit that grows to a
 * target (future value of an ordinary annuity solved for the deposit).
 */
module Annuity {

  /** An annual rate, as a fraction, spread over twelve monthly periods. */
  function MonthlyRate(annualRate: real): (r: real)
    ensures 12.0 * r == annualRate
    ensures r > 0.0 <==> annualRate > 0.0
  {
    annualRate / 12.0
  }

  /** The number of monthly periods in a term of whole years. */
  function NumPayments(years: int): (n: int)
    ensures n % 12 == 0 && n / 12 == years
  {
    years * 12
  }

  /** x raised to the k-th power. */
  function Pow(x: real, k: nat): real
  {
    if k == 0 then 1.0 else x * Pow(x, k - 1)
  }

  /** Bernoulli's inequality: k periods of compounding at rate r >= 0 gain at least k times the rate. */
  lemma {:induction false} Bernoulli(r: real, k: nat)
    requires r >= 0.0
    ensures Pow(1.0 + r, k) >= 1.0 + k as real * r
  {
    if k > 0 {
      Bernoulli(r, k - 1);
      BernoulliStep(r, (k - 1) as real, Pow(1.0 + r, k - 1));
    }
  }

  /** One step of Bernoulli's inequality, on plain reals. */
  lemma BernoulliStep(r: real, j: real, p: real)
    requires r >= 0.0 && j >= 0.0 && p >= 1.0 + j * r
    ensures (1.0 + r) * p >= 1.0 + (j + 1.0) * r
  {
    MulMonotone(1.0 + j * r, p, 1.0 + r);
    MulNonneg(j * r, r);
    assert (1.0 + r) * (1.0 + j * r) == 1.0 + (j + 1.0) * r + j * r * r;
  }

  /** At least one period of compounding at rate r >= 0 grows by at least the factor 1 + r. */
  lemma PowAtLeastOnePeriod(r: real, k: nat)
    requires r >= 0.0 && k >= 1
    ensures Pow(1.0 + r, k) >= 1.0 + r
  {
    Bernoulli(r, k);
    MulMonotone(1.0, k as real, r);
  }

  /** Multiplying both sides of an inequality by a non-negative factor. */
  lemma MulMonotone(a: real, b: real, c: real)
    requires a <= b && c >= 0.0
    ensures c * a <= c * b
  {
    MulNonneg(b - a, c);
    assert c * b - c * a == (b - a) * c;
  }

  /** MulMonotone with the factor on the right. */
  lemma MulMonotoneRight(a: real, b: real, c: real)
    requires a <= b && c >= 0.0
    ensures a * c <= b * c
  {
    MulMonotone(a, b, c);
    assert c * a == a * c && c * b == b * c;
  }

  /** A product of non-negative reals is non-negative. */
  lemma MulNonneg(a: real, b: real)
    requires a >= 0.0 && b >= 0.0
    ensures a * b >= 0.0
  {
  }

  /**
   * The balance of an account after k monthly periods that starts at `start`:
   * each period the balance earns interest at rate r and then `flow` is added
   * to it (a loan repayment is a negative flow, a savings deposit a positive one).
   */
  function Compound(start: real, r: real, flow: real, k: nat): real
  {
    if k == 0 then start
    else
      var b := Compound(start, r, flow, k - 1);
      b + b * r + flow
  }

  /** One more period of Compound. */
  lemma CompoundStep(start: real, r: real, flow: real, k: nat)
    requires k > 0
    ensures Compound(start, r, flow, k) == Compound(start, r, flow, k - 1) + Compound(start, r, flow, k - 1) * r + flow
  {
  }

  /** Closed form of Compound: r * balance == r * start * (1+r)^k + flow * ((1+r)^k - 1). */
  lemma {:induction false} CompoundClosedForm(start: real, r: real, flow: real, k: nat)
    ensures r * Compound(start, r, flow, k) == r * start * Pow(1.0 + r, k) + flow * (Pow(1.0 + r, k) - 1.0)
  {
    if k > 0 {
      CompoundClosedForm(start, r, flow, k - 1);
      ClosedFormStep(start, r, flow, Compound(start, r, flow, k - 1), Pow(1.0 + r, k - 1),
                     Compound(start, r, flow, k), Pow(1.0 + r, k));
    }
  }

  /**
   * One period of CompoundClosedForm, on plain reals: b is the balance and p
   * the growth factor so far, b' and p' the same one period later.
   */
  lemma ClosedFormStep(start: real, r: real, flow: real, b: real, p: real, b': real, p': real)
    requires r * b == r * start * p + flow * (p - 1.0)
    requires b' == b + b * r + flow && p' == (1.0 + r) * p
    ensures r * b' == r * start * p' + flow * (p' - 1.0)
  {
    assert r * (b + b * r + flow) == (r * b) * (1.0 + r) + r * flow;
  }

  /**
   * cuota: the constant monthly payment of a loan of `amount` over `duration`
   * years at annual rate `interestRate`, amount * r / (1 - (1+r)^-n).
   * Multiplied out, c * ((1+r)^n - 1) == amount * r * (1+r)^n; for a positive
   * amount it is more than one month's interest on the whole amount and at most
   * the amount with one month's interest.
   */
  function Cuota(interestRate: real, duration: int, amount: real): (c: real)
    requires interestRate > 0.0 && duration >= 1
    ensures c * (Pow(1.0 + MonthlyRate(interestRate), NumPayments(duration)) - 1.0)
            == amount * MonthlyRate(interestRate) * Pow(1.0 + MonthlyRate(interestRate), NumPayments(duration))
    ensures amount > 0.0 ==> amount * MonthlyRate(interestRate) < c <= amount * (1.0 + MonthlyRate(interestRate))
  {
    var r := MonthlyRate(interestRate);
    var n := NumPayments(duration);
    var p := Pow(1.0 + r, n);
    PowAtLeastOnePeriod(r, n);
    CuotaBounds(amount, r, p);
    amount * r / (1.0 - 1.0 / p)
  }

  /** The algebra behind Cuota's contract, for a growth factor p >= 1 + r. */
  lemma CuotaBounds(amount: real, r: real, p: real)
    requires r > 0.0 && p >= 1.0 + r
    ensures p > 1.0 && 1.0 - 1.0 / p != 0.0
    ensures (amount * r / (1.0 - 1.0 / p)) * (p - 1.0) == amount * r * p
    ensures amount > 0.0 ==> amount * r < amount * r / (1.0 - 1.0 / p) <= amount * (1.0 + r)
  {
    var d := 1.0 - 1.0 / p;
    assert d * p == p - 1.0;
    assert 0.0 < d < 1.0;
    var c := amount * r / d;
    assert c * d == amount * r;
    assert c * (p - 1.0) == amount * r * p by {
      assert c * (p - 1.0) == (c * d) * p;
    }
    if amount > 0.0 {
      MulPos(amount, r);
      assert c > 0.0;
      MulPos(c, 1.0 - d);
      assert c - amount * r == c * (1.0 - d);
      MulNonneg(amount, p - 1.0 - r);
      assert amount * (1.0 + r) * (p - 1.0) - amount * r * p == amount * (p - 1.0 - r);
      MulCancel(c, amount * (1.0 + r), p - 1.0);
    }
  }

  /** A product of positive reals is positive. */
  lemma MulPos(a: real, b: real)
    requires a > 0.0 && b > 0.0
    ensures a * b > 0.0
  {
  }

  /** Dividing both sides of an inequality by a positive factor. */
  lemma MulCancel(a: real, b: real, q: real)
    requires q > 0.0 && a * q <= b * q
    ensures a <= b
  {
    assert a * q - b * q == (a - b) * q;
    if a > b {
      MulPos(a - b, q);
    }
  }

  /**
   * The annuity identity of the loan: repaying Cuota every period, with the
   * interest on the outstanding balance charged first and nothing rounded,
   * brings the balance from `amount` to exactly zero after the last period.
   */
  lemma CuotaRetiresLoan(interestRate: real, duration: int, amount: real)
    requires interestRate > 0.0 && duration >= 1
    ensures Compound(amount, MonthlyRate(interestRate), -Cuota(interestRate, duration, amount), NumPayments(duration)) == 0.0
  {
    var r := MonthlyRate(interestRate);
    var n := NumPayments(duration);
    var c := Cuota(interestRate, duration, amount);
    CompoundClosedForm(amount, r, -c, n);
    assert r * Compound(amount, r, -c, n) == 0.0;
  }

  /**
   * savings: the monthly deposit that, paid at the end of each of `period`
   * months into an account earning `interest` a year, grows to `amount`:
   * amount * m / ((1+m)^period - 1) with m = interest / 12. For a target of
   * at least zero the deposits themselves never exceed the target.
   */
  function Savings(amount: real, period: int, interest: real): (s: real)
    requires interest > 0.0 && period >= 1
    ensures s * (Pow(1.0 + MonthlyRate(interest), period) - 1.0) == amount * MonthlyRate(interest)
    ensures amount >= 0.0 ==> 0.0 <= s && s * period as real <= amount
  {
    var m := MonthlyRate(interest);
    var p := Pow(1.0 + m, period);
    Bernoulli(m, period);
    SavingsBounds(amount, period as real, m, p);
    amount * m / (p - 1.0)
  }

  /** The algebra behind Savings' contract, for a growth factor p >= 1 + k * m. */
  lemma SavingsBounds(amount: real, k: real, m: real, p: real)
    requires m > 0.0 && k >= 1.0 && p >= 1.0 + k * m
    ensures (amount * m / (p - 1.0)) * (p - 1.0) == amount * m
    ensures amount >= 0.0 ==> 0.0 <= amount * m / (p - 1.0) && (amount * m / (p - 1.0)) * k <= amount
  {
    var q := p - 1.0;
    MulPos(k, m);
    var s := amount * m / q;
    assert s * q == amount * m;
    if amount >= 0.0 {
      MulNonneg(amount, m);
      assert s >= 0.0;
      MulMonotone(k * m, q, s);
      assert (s * k) * m == s * (k * m);
      assert amount * m == s * q;
      MulCancel(s * k, amount, m);
    }
  }

  /**
   * The annuity identity of the savings plan: `period` end-of-month deposits of
   * Savings(amount, period, interest), compounding monthly, add up to exactly
   * `amount`.
   */
  lemma SavingsReachTarget(amount: real, period: int, interest: real)
    requires interest > 0.0 && period >= 1
    ensures Compound(0.0, MonthlyRate(interest), Savings(amount, period, interest), period) == amount
  {
    var m := MonthlyRate(interest);
    var s := Savings(amount, period, interest);
    CompoundClosedForm(0.0, m, s, period);
    assert m * Compound(0.0, m, s, period) == m * amount;
  }

  /**
   * The value, at the end of k months, of k end-of-month deposits s earning
   * monthly rate m: the last deposit has not earned anything yet, the one
   * before it one month's interest, and so on, so the j-th power of 1 + m
   * appears once for each j below k.
   */
  function DepositsSum(s: real, m: real, k: nat): real
  {
    if k == 0 then 0.0 else s * Pow(1.0 + m, k - 1) + DepositsSum(s, m, k - 1)
  }

  /** Adding one more month in front: the k + 1 deposits are one deposit plus the k earlier ones grown one month. */
  lemma {:induction false} DepositsSumShift(s: real, m: real, k: nat)
    ensures DepositsSum(s, m, k + 1) == s + (1.0 + m) * DepositsSum(s, m, k)
  {
    if k > 0 {
      DepositsSumShift(s, m, k - 1);
      ShiftStep(s, m, Pow(1.0 + m, k - 1), DepositsSum(s, m, k - 1), DepositsSum(s, m, k),
                Pow(1.0 + m, k), DepositsSum(s, m, k + 1));
    }
  }

  /**
   * One step of DepositsSumShift, on plain reals: p is (1+m)^(k-1) and p' is
   * (1+m)^k; d, e and e' are the sums of k - 1, k and k + 1 deposits.
   */
  lemma ShiftStep(s: real, m: real, p: real, d: real, e: real, p': real, e': real)
    requires e == s * p + d && e == s + (1.0 + m) * d
    requires p' == (1.0 + m) * p && e' == s * p' + e
    ensures e' == s + (1.0 + m) * e
  {
    assert (1.0 + m) * e == (1.0 + m) * (s * p) + (1.0 + m) * d;
  }

  /**
   * The savings balance month by month and the sum of the grown deposits are
   * the same figure: k end-of-month deposits s at monthly rate m, starting
   * from nothing, come to the sum of s * (1+m)^j over j < k.
   */
  lemma {:induction false} CompoundIsDepositsSum(s: real, m: real, k: nat)
    ensures Compound(0.0, m, s, k) == DepositsSum(s, m, k)
  {
    if k > 0 {
      CompoundIsDepositsSum(s, m, k - 1);
      DepositsSumShift(s, m, k - 1);
      var b := Compound(0.0, m, s, k - 1);
      assert Compound(0.0, m, s, k) == b + b * m + s;
      assert b + b * m == (1.0 + m) * b;
    }
  }

  /**
   * The savings identity in the form of a sum: the deposits of
   * Savings(amount, period, interest), each grown by (1+m)^j for j below
   * `period`, add up to exactly `amount`.
   */
  lemma SavingsDepositsSum(amount: real, period: int, interest: real)
    requires interest > 0.0 && period >= 1
    ensures DepositsSum(Savings(amount, period, interest), MonthlyRate(interest), period) == amount
  {
    SavingsReachTarget(amount, period, interest);
    CompoundIsDepositsSum(Savings(amount, period, interest), MonthlyRate(interest), period);
  }

  /**
   * What a smaller or larger deposit reaches: over the same months and rate,
   * a deposit below Savings(...) ends short of the target and one above it
   * ends beyond the target.
   */
  lemma DepositComparedWithTarget(amount: real, period: int, interest: real, deposit: real)
    requires interest > 0.0 && period >= 1
    ensures deposit <= Savings(amount, period, interest) ==> Compound(0.0, MonthlyRate(interest), deposit, period) <= amount
    ensures deposit > Savings(amount, period, interest) ==> Compound(0.0, MonthlyRate(interest), deposit, period) > amount
  {
    var m := MonthlyRate(interest);
    var s := Savings(amount, period, interest);
    var q := Pow(1.0 + m, period) - 1.0;
    Bernoulli(m, period);
    MulPos(period as real, m);
    assert m > 0.0 && q > 0.0;
    CompoundClosedForm(0.0, m, deposit, period);
    var f := Compound(0.0, m, deposit, period);
    assert f * m == deposit * q;
    assert amount * m == s * q;
    CompareScaled(f, deposit, amount, s, m, q);
  }

  /**
   * Comparing two figures through their scaled forms, on plain reals: with
   * f * m == deposit * q and amount * m == s * q for positive m and q, f
   * compares with amount as deposit compares with s.
   */
  lemma CompareScaled(f: real, deposit: real, amount: real, s: real, m: real, q: real)
    requires m > 0.0 && q > 0.0 && f * m == deposit * q && amount * m == s * q
    ensures deposit <= s ==> f <= amount
    ensures deposit > s ==> f > amount
  {
    if deposit <= s {
      CancelCompare(f, amount, deposit, s, m, q);
    } else if f <= amount {
      CancelCompare(deposit, s, f, amount, q, m);
      assert false;
    }
  }

  /** If x * m == u * q and y * m == v * q with m, q > 0, then u <= v gives x <= y. */
  lemma CancelCompare(x: real, y: real, u: real, v: real, m: real, q: real)
    requires m > 0.0 && q > 0.0 && x * m == u * q && y * m == v * q && u <= v
    ensures x <= y
  {
    MulMonotoneRight(u, v, q);
    MulCancel(x, y, m);
  }
}
