/**
 * The amortisation schedule: month by month, the interest on the balance
 * outstanding is charged, the rest of the instalment repays principal, and
 * the balance falls by that principal part.  The central theorem is that
 * the annuity instalment of module Annuity, paid for the whole term, leaves
 * a balance of exactly zero, and that it is the only constant instalment
 * that does.
 */
module Amortisation {
  import opened Annuity

  /** One line of the schedule, as the preview table shows it. */
  datatype Row = Row(month: nat, payment: real, principalPart: real, interest: real, balance: real)

  /** The balance after one month: interest accrues, the instalment is paid. */
  function Step(opening: real, rate: real, payment: real): (closing: real)
    ensures closing == opening * (1.0 + rate) - payment
  {
    var interest := opening * rate;
    var principalPart := payment - interest;
    opening - principalPart
  }

  /**
   * The balance outstanding after `k` instalments of `payment`: the value of
   * `remaining_balance` after k passes of the schedule loop.  Its closed
   * forms are BalanceTimesRate and BalanceAtZeroRate below.
   */
  function Balance(principal: real, rate: real, payment: real, k: nat): real
  {
    if k == 0 then principal else Step(Balance(principal, rate, payment, k - 1), rate, payment)
  }

  /** The schedule line for month `month`, which opens with balance `opening`. */
  function MonthRow(month: nat, opening: real, rate: real, payment: real): (row: Row)
    ensures row.month == month && row.payment == payment
    ensures row.interest == opening * rate
    ensures row.principalPart + row.interest == payment
    ensures row.balance == opening - row.principalPart
  {
    var interest := opening * rate;
    Row(month, payment, payment - interest, interest, Step(opening, rate, payment))
  }

  /**
   * `rows` are the first |rows| lines of the schedule for this loan.  In
   * such a schedule the lines are numbered 1, 2, ... in order, each splits
   * the instalment into principal and interest, and each line's balance is
   * the previous line's balance (the principal, for the first line) less its
   * principal part.
   */
  predicate IsScheduleOf(rows: seq<Row>, principal: real, rate: real, payment: real)
    ensures IsScheduleOf(rows, principal, rate, payment) ==>
              forall i :: 0 <= i < |rows| ==>
                rows[i].month == i + 1 && rows[i].payment == payment &&
                rows[i].principalPart + rows[i].interest == payment
    ensures IsScheduleOf(rows, principal, rate, payment) && |rows| > 0 ==>
              rows[0].balance == principal - rows[0].principalPart
    ensures IsScheduleOf(rows, principal, rate, payment) ==>
              forall i :: 0 < i < |rows| ==>
                rows[i].balance == rows[i - 1].balance - rows[i].principalPart
  {
    forall i :: 0 <= i < |rows| ==>
      rows[i] == MonthRow(i + 1, Balance(principal, rate, payment, i), rate, payment)
  }

  /**
   * The schedule walk: starting from the principal, produce one line per
   * month for `months` months, updating the balance in place.
   */
  method Schedule(principal: real, rate: real, payment: real, months: nat)
    returns (rows: seq<Row>, balance: real)
    ensures |rows| == months
    ensures IsScheduleOf(rows, principal, rate, payment)
    ensures balance == Balance(principal, rate, payment, months)
    ensures months > 0 ==> rows[months - 1].balance == balance
  {
    balance := principal;
    rows := [];
    for month := 1 to months + 1
      invariant |rows| == month - 1
      invariant balance == Balance(principal, rate, payment, month - 1)
      invariant IsScheduleOf(rows, principal, rate, payment)
      invariant month > 1 ==> rows[month - 2].balance == balance
    {
      var interest := balance * rate;
      var principalPart := payment - interest;
      balance := balance - principalPart;
      rows := rows + [Row(month, payment, principalPart, interest, balance)];
    }
  }

  /** Two schedules of the same loan agree on their common months. */
  lemma SchedulePrefix(short: seq<Row>, long: seq<Row>, principal: real, rate: real, payment: real)
    requires IsScheduleOf(short, principal, rate, payment)
    requires IsScheduleOf(long, principal, rate, payment)
    requires |short| <= |long|
    ensures short == long[..|short|]
  {
  }

  /**
   * Division-free closed form of the balance:
   * r * B(k) == P * r * (1+r)^k - M * ((1+r)^k - 1).
   */
  lemma {:induction false} BalanceTimesRate(principal: real, rate: real, payment: real, k: nat)
    ensures rate * Balance(principal, rate, payment, k)
            == principal * rate * Pow(1.0 + rate, k) - payment * (Pow(1.0 + rate, k) - 1.0)
  {
    if k > 0 {
      var q := 1.0 + rate;
      var b := Balance(principal, rate, payment, k - 1);
      var qk := Pow(q, k - 1);
      var bk := Balance(principal, rate, payment, k);
      var qk1 := Pow(q, k);
      BalanceTimesRate(principal, rate, payment, k - 1);
      CompoundOneMonth(principal, rate, payment, b, qk, bk, qk1);
    }
  }

  /** The inductive step of BalanceTimesRate, as plain field arithmetic. */
  lemma CompoundOneMonth(principal: real, rate: real, payment: real,
                         b: real, qk: real, next: real, qNext: real)
    requires rate * b == principal * rate * qk - payment * (qk - 1.0)
    requires next == b * (1.0 + rate) - payment && qNext == (1.0 + rate) * qk
    ensures rate * next == principal * rate * qNext - payment * (qNext - 1.0)
  {
    var q := 1.0 + rate;
    calc {
      rate * (b * q - payment);
      == q * (rate * b) - rate * payment;
      == q * (principal * rate * qk - payment * (qk - 1.0)) - rate * payment;
      == principal * rate * (q * qk) - payment * (q * qk - q + rate);
      == principal * rate * (q * qk) - payment * (q * qk - 1.0);
    }
  }

  /** At a zero rate every instalment repays principal: B(k) == P - k * M. */
  lemma {:induction false} BalanceAtZeroRate(principal: real, payment: real, k: nat)
    ensures Balance(principal, 0.0, payment, k) == principal - (k as real) * payment
  {
    if k > 0 {
      BalanceAtZeroRate(principal, payment, k - 1);
    }
  }

  /**
   * With the annuity instalment, the balance after k <= n months is
   * P * ((1+r)^n - (1+r)^k) / ((1+r)^n - 1) for a positive rate and
   * P * (n - k) / n at a zero rate; stated here without division.
   */
  lemma AnnuityBalance(principal: real, annualRate: real, years: nat, k: nat)
    requires annualRate >= 0.0 && years >= 1 && k <= TotalMonths(years)
    ensures var r := MonthlyRate(annualRate);
            var n := TotalMonths(years);
            var b := Balance(principal, r, MonthlyPayment(principal, annualRate, years), k);
            if r == 0.0 then b * (n as real) == principal * ((n - k) as real)
            else b * (Pow(1.0 + r, n) - 1.0) == principal * (Pow(1.0 + r, n) - Pow(1.0 + r, k))
  {
    var r := MonthlyRate(annualRate);
    var n := TotalMonths(years);
    var m := MonthlyPayment(principal, annualRate, years);
    var b := Balance(principal, r, m, k);
    if r == 0.0 {
      BalanceAtZeroRate(principal, m, k);
      assert m * (n as real) == principal;
      calc {
        b * (n as real);
        == principal * (n as real) - (k as real) * (m * (n as real));
        == principal * ((n - k) as real);
      }
    } else {
      var qn := Pow(1.0 + r, n);
      var qk := Pow(1.0 + r, k);
      AnnuityIdentity(principal, annualRate, years);
      BalanceTimesRate(principal, r, m, k);
      assert r * (b * (qn - 1.0)) == r * (principal * (qn - qk)) by {
        calc {
          r * (b * (qn - 1.0));
          == (r * b) * (qn - 1.0);
          == (principal * r * qk - m * (qk - 1.0)) * (qn - 1.0);
          == principal * r * qk * (qn - 1.0) - (m * (qn - 1.0)) * (qk - 1.0);
          == principal * r * qk * (qn - 1.0) - principal * r * qn * (qk - 1.0);
          == r * (principal * (qn - qk));
        }
      }
    }
  }

  /**
   * At a positive rate, a constant instalment clears the loan in n months
   * exactly when it satisfies the division-free annuity equation
   * M * ((1+r)^n - 1) == P * r * (1+r)^n.
   */
  lemma ClearsAtPositiveRate(principal: real, rate: real, payment: real, n: nat)
    requires rate > 0.0 && Pow(1.0 + rate, n) > 1.0
    ensures Balance(principal, rate, payment, n) == 0.0
            <==> payment * (Pow(1.0 + rate, n) - 1.0) == principal * rate * Pow(1.0 + rate, n)
  {
    var b := Balance(principal, rate, payment, n);
    BalanceTimesRate(principal, rate, payment, n);
    if b != 0.0 {
      assert rate * b != 0.0;
    }
  }

  /** At a positive rate, only the solution of the annuity equation clears the loan. */
  lemma ClearsOnlyWith(principal: real, rate: real, payment: real, solution: real, n: nat)
    requires rate > 0.0 && Pow(1.0 + rate, n) > 1.0
    requires solution * (Pow(1.0 + rate, n) - 1.0) == principal * rate * Pow(1.0 + rate, n)
    ensures Balance(principal, rate, payment, n) == 0.0 <==> payment == solution
  {
    var d := Pow(1.0 + rate, n) - 1.0;
    var c := principal * rate * Pow(1.0 + rate, n);
    ClearsAtPositiveRate(principal, rate, payment, n);
    assert Balance(principal, rate, payment, n) == 0.0 <==> payment * d == c;
    if payment * d == c {
      SameSolution(payment, solution, d, c);
    }
    if payment == solution {
      assert payment * d == c;
    }
  }

  /** At a zero rate, only the equal split P / n clears the loan in n months. */
  lemma ClearsAtZeroRate(principal: real, payment: real, n: nat)
    requires n >= 1
    ensures Balance(principal, 0.0, payment, n) == 0.0 <==> payment == principal / (n as real)
  {
    BalanceAtZeroRate(principal, payment, n);
  }

  /**
   * The defining promise of the annuity formula: paying the instalment for
   * the whole term leaves nothing outstanding.
   */
  lemma FinalBalanceIsZero(principal: real, annualRate: real, years: nat)
    requires annualRate >= 0.0 && years >= 1
    ensures Balance(principal, MonthlyRate(annualRate),
                    MonthlyPayment(principal, annualRate, years), TotalMonths(years)) == 0.0
  {
    PaymentIsUnique(principal, annualRate, years, MonthlyPayment(principal, annualRate, years));
  }

  /**
   * The annuity instalment is the only constant instalment that clears the
   * loan in exactly the term.
   */
  lemma PaymentIsUnique(principal: real, annualRate: real, years: nat, payment: real)
    requires annualRate >= 0.0 && years >= 1
    ensures Balance(principal, MonthlyRate(annualRate), payment, TotalMonths(years)) == 0.0
            <==> payment == MonthlyPayment(principal, annualRate, years)
  {
    var r := MonthlyRate(annualRate);
    var n := TotalMonths(years);
    var m := MonthlyPayment(principal, annualRate, years);
    if r == 0.0 {
      ClearsAtZeroRate(principal, payment, n);
    } else {
      AnnuityIdentity(principal, annualRate, years);
      ClearsOnlyWith(principal, r, payment, m, n);
    }
  }

  /**
   * While the instalment covers the interest on the principal, the balance
   * never rises above the principal and never increases from one month to
   * the next.
   */
  lemma {:induction false} BalanceNonIncreasing(principal: real, rate: real, payment: real, k: nat)
    requires rate >= 0.0 && principal * rate <= payment
    ensures Balance(principal, rate, payment, k) <= principal
    ensures Balance(principal, rate, payment, k + 1) <= Balance(principal, rate, payment, k)
  {
    var b := Balance(principal, rate, payment, k);
    if k > 0 {
      BalanceNonIncreasing(principal, rate, payment, k - 1);
    }
    assert rate * b <= rate * principal;
    assert Balance(principal, rate, payment, k + 1) == b + rate * b - payment;
  }

  /**
   * Under the annuity instalment the outstanding balance stays between zero
   * and the principal and falls month by month throughout the term.
   */
  lemma AnnuityBalanceBounds(principal: real, annualRate: real, years: nat, k: nat)
    requires principal >= 0.0 && annualRate >= 0.0 && years >= 1 && k <= TotalMonths(years)
    ensures var r := MonthlyRate(annualRate);
            var m := MonthlyPayment(principal, annualRate, years);
            0.0 <= Balance(principal, r, m, k) <= principal &&
            (k < TotalMonths(years) ==> Balance(principal, r, m, k + 1) <= Balance(principal, r, m, k))
  {
    var r := MonthlyRate(annualRate);
    var n := TotalMonths(years);
    var m := MonthlyPayment(principal, annualRate, years);
    var b := Balance(principal, r, m, k);
    PaymentCoversInterest(principal, annualRate, years);
    BalanceNonIncreasing(principal, r, m, k);
    AnnuityBalance(principal, annualRate, years, k);
    if r == 0.0 {
      ProductNonNegative(principal, (n - k) as real);
      NonNegativeFactor(b, n as real, principal * ((n - k) as real));
    } else {
      var qn := Pow(1.0 + r, n);
      PowAboveOne(1.0 + r, n);
      PowMonotone(1.0 + r, k, n);
      ProductNonNegative(principal, qn - Pow(1.0 + r, k));
      NonNegativeFactor(b, qn - 1.0, principal * (qn - Pow(1.0 + r, k)));
    }
  }

  /**
   * Every line of a schedule at the annuity instalment, within the term,
   * shows a balance between zero and the principal, no higher than the line
   * before it.
   */
  lemma AnnuityScheduleBounds(rows: seq<Row>, principal: real, annualRate: real, years: nat)
    requires principal >= 0.0 && annualRate >= 0.0 && years >= 1
    requires IsScheduleOf(rows, principal, MonthlyRate(annualRate),
                          MonthlyPayment(principal, annualRate, years))
    requires |rows| <= TotalMonths(years)
    ensures forall i :: 0 <= i < |rows| ==> 0.0 <= rows[i].balance <= principal
    ensures forall i :: 0 < i < |rows| ==> rows[i].balance <= rows[i - 1].balance
  {
    var r := MonthlyRate(annualRate);
    var m := MonthlyPayment(principal, annualRate, years);
    forall i | 0 <= i < |rows|
      ensures 0.0 <= rows[i].balance <= principal
      ensures i > 0 ==> rows[i].balance <= rows[i - 1].balance
    {
      assert rows[i].balance == Balance(principal, r, m, i + 1);
      AnnuityBalanceBounds(principal, annualRate, years, i + 1);
      if i > 0 {
        assert rows[i - 1].balance == Balance(principal, r, m, i);
        AnnuityBalanceBounds(principal, annualRate, years, i);
      }
    }
  }

  /** Sum of the instalments of the given lines. */
  function TotalPaid(rows: seq<Row>): real
  {
    if rows == [] then 0.0 else TotalPaid(rows[..|rows| - 1]) + rows[|rows| - 1].payment
  }

  /** Sum of the principal parts of the given lines. */
  function TotalPrincipal(rows: seq<Row>): real
  {
    if rows == [] then 0.0 else TotalPrincipal(rows[..|rows| - 1]) + rows[|rows| - 1].principalPart
  }

  /** Sum of the interest parts of the given lines. */
  function TotalInterest(rows: seq<Row>): real
  {
    if rows == [] then 0.0 else TotalInterest(rows[..|rows| - 1]) + rows[|rows| - 1].interest
  }

  /**
   * Over the first k months the instalments total k * M, the principal
   * parts total what the balance fell by, and the interest is the rest.
   */
  lemma {:induction false} ScheduleTotals(rows: seq<Row>, principal: real, rate: real, payment: real)
    requires IsScheduleOf(rows, principal, rate, payment)
    ensures TotalPaid(rows) == (|rows| as real) * payment
    ensures TotalPrincipal(rows) == principal - Balance(principal, rate, payment, |rows|)
    ensures TotalInterest(rows)
            == (|rows| as real) * payment - principal + Balance(principal, rate, payment, |rows|)
  {
    if rows != [] {
      var k := |rows| - 1;
      var front := rows[..k];
      assert IsScheduleOf(front, principal, rate, payment) by {
        forall i | 0 <= i < |front|
          ensures front[i] == MonthRow(i + 1, Balance(principal, rate, payment, i), rate, payment)
        {
          assert front[i] == rows[i];
        }
      }
      ScheduleTotals(front, principal, rate, payment);
      assert rows[k] == MonthRow(k + 1, Balance(principal, rate, payment, k), rate, payment);
    }
  }

  /**
   * Over the full term at the annuity instalment, the principal parts repay
   * exactly the principal, the last line shows a zero balance, and the
   * interest column sums to the total paid less the principal.
   */
  lemma FullTermTotals(rows: seq<Row>, principal: real, annualRate: real, years: nat)
    requires annualRate >= 0.0 && years >= 1
    requires IsScheduleOf(rows, principal, MonthlyRate(annualRate),
                          MonthlyPayment(principal, annualRate, years))
    requires |rows| == TotalMonths(years)
    ensures var m := MonthlyPayment(principal, annualRate, years);
            rows[|rows| - 1].balance == 0.0 &&
            TotalPrincipal(rows) == principal &&
            TotalPaid(rows) == m * (TotalMonths(years) as real) &&
            TotalInterest(rows) == TotalPaid(rows) - principal
  {
    var r := MonthlyRate(annualRate);
    var m := MonthlyPayment(principal, annualRate, years);
    var n := TotalMonths(years);
    FinalBalanceIsZero(principal, annualRate, years);
    ScheduleTotals(rows, principal, r, m);
    assert rows[n - 1] == MonthRow(n, Balance(principal, r, m, n - 1), r, m);
  }
}
