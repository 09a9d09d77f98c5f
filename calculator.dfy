/**
 * What the calculator does when "Calculate Monthly Payment" is pressed:
 * convert the percentage to a fraction, compute the instalment, derive the
 * payment summary, and walk the schedule for the first twelve months.
 * The form's widgets bound the inputs; those bounds are the precondition.
 */
module Calculator {
  import opened Annuity
  import opened Amortisation

  /** The preview table covers the first twelve months of the schedule. */
  const PreviewMonths: nat := 12

  /**
   * The ranges the input form enforces for the term (1 to 30 years) and the
   * rate (0% to 50%); the lease amount is a whole number at least 0, which
   * its type `nat` carries.  Within these ranges the preview never runs past
   * the term, and the monthly rate is a non-negative fraction.
   */
  predicate ValidInputs(years: nat, ratePercent: real)
    ensures ValidInputs(years, ratePercent) ==>
              PreviewMonths <= TotalMonths(years) &&
              0.0 <= MonthlyRate(ratePercent / 100.0) <= 0.5 / 12.0
  {
    1 <= years <= 30 && 0.0 <= ratePercent <= 50.0
  }

  /** The payment summary shown under the instalment. */
  datatype Summary = Summary(totalPaid: real, totalInterest: real, interestPercent: real)

  /** The amount paid over the whole term at a constant instalment. */
  function PaidOverTerm(payment: real, years: nat): real
  {
    payment * (TotalMonths(years) as real)
  }

  /** `pct` is `part` expressed as a percentage of `whole`. */
  predicate IsPercentage(pct: real, part: real, whole: real)
  {
    pct * whole == part * 100.0
  }

  /**
   * The result of one press of the button.  The interest percentage divides
   * by the lease amount, so a zero amount stops the calculation after the
   * instalment is shown and before the summary and the preview.
   */
  datatype Outcome =
    | Completed(payment: real, summary: Summary, preview: seq<Row>)
    | InterestPercentFault(payment: real)

  /**
   * One calculation: the instalment, the summary, and the twelve-month
   * preview of the schedule, or the fault raised by a zero lease amount.
   */
  method Calculate(leaseAmount: nat, years: nat, ratePercent: real) returns (out: Outcome)
    requires ValidInputs(years, ratePercent)
    ensures out.payment == MonthlyPayment(leaseAmount as real, ratePercent / 100.0, years)
    ensures out.InterestPercentFault? <==> leaseAmount == 0
    ensures out.Completed? ==>
              var principal := leaseAmount as real;
              var s := out.summary;
              s.totalPaid == PaidOverTerm(out.payment, years) &&
              s.totalInterest + principal == s.totalPaid &&
              0.0 <= s.totalInterest &&
              IsPercentage(s.interestPercent, s.totalInterest, principal) &&
              0.0 <= s.interestPercent
    ensures out.Completed? ==>
              var principal := leaseAmount as real;
              |out.preview| == PreviewMonths &&
              IsScheduleOf(out.preview, principal, MonthlyRate(ratePercent / 100.0), out.payment) &&
              (forall i :: 0 <= i < PreviewMonths ==> 0.0 <= out.preview[i].balance <= principal) &&
              (forall i :: 0 < i < PreviewMonths ==> out.preview[i].balance <= out.preview[i - 1].balance)
  {
    var principal := leaseAmount as real;
    var annualRateDecimal := ratePercent / 100.0;
    var monthlyPayment := MonthlyPayment(principal, annualRateDecimal, years);

    var totalPayments := monthlyPayment * (years as real) * 12.0;
    var totalInterest := totalPayments - principal;
    if leaseAmount == 0 {
      return InterestPercentFault(monthlyPayment);
    }
    var interestPercent := (totalInterest / principal) * 100.0;

    var monthlyRate := annualRateDecimal / 12.0;
    var rows, _ := Schedule(principal, monthlyRate, monthlyPayment, PreviewMonths);

    assert totalPayments == PaidOverTerm(monthlyPayment, years);
    assert 0.0 <= totalInterest by {
      PaymentsCoverPrincipal(principal, annualRateDecimal, years);
    }
    assert IsPercentage(interestPercent, totalInterest, principal) && 0.0 <= interestPercent by {
      PercentOf(totalInterest, principal);
    }
    assert (forall i :: 0 <= i < PreviewMonths ==> 0.0 <= rows[i].balance <= principal) &&
           (forall i :: 0 < i < PreviewMonths ==> rows[i].balance <= rows[i - 1].balance) by {
      AnnuityScheduleBounds(rows, principal, annualRateDecimal, years);
    }
    out := Completed(monthlyPayment, Summary(totalPayments, totalInterest, interestPercent), rows);
  }
}
