/**
 * The fixed-rate payment of a fully amortising lease: the constant monthly
 * instalment given by the standard annuity formula
 *
 *   M = P * r * (1 + r)^n / ((1 + r)^n - 1)
 *
 * with r the monthly rate and n the number of monthly payments, and the
 * equal split P / n when the rate is zero.  All arithmetic is exact (`real`).
 */
module Annuity {

  /** q raised to a natural power, the `(1 + r)^n` of the annuity formula. */
  function Pow(q: real, n: nat): real
  {
    if n == 0 then 1.0 else q * Pow(q, n - 1)
  }

  lemma {:induction false} PowAtLeastOne(q: real, n: nat)
    requires q >= 1.0
    ensures Pow(q, n) >= 1.0
  {
    if n > 0 {
      PowAtLeastOne(q, n - 1);
      assert q * Pow(q, n - 1) >= Pow(q, n - 1);
    }
  }

  /** A growth factor above one, compounded at least once, exceeds one. */
  lemma {:induction false} PowAboveOne(q: real, n: nat)
    requires q > 1.0 && n >= 1
    ensures Pow(q, n) > 1.0
  {
    PowAtLeastOne(q, n - 1);
    assert q * Pow(q, n - 1) > Pow(q, n - 1);
  }

  /** Compounding longer never yields less when the factor is at least one. */
  lemma {:induction false} PowMonotone(q: real, j: nat, k: nat)
    requires q >= 1.0 && j <= k
    ensures Pow(q, j) <= Pow(q, k)
  {
    if j < k {
      PowMonotone(q, j, k - 1);
      PowAtLeastOne(q, k - 1);
      assert q * Pow(q, k - 1) >= Pow(q, k - 1);
    }
  }

  /**
   * Growth over n periods at rate r is at most n periods of interest on the
   * final amount: (1 + r)^n - 1 <= n * r * (1 + r)^n.
   */
  lemma {:induction false} PowGrowthBound(r: real, n: nat)
    requires r >= 0.0
    ensures Pow(1.0 + r, n) - 1.0 <= (n as real) * r * Pow(1.0 + r, n)
  {
    if n > 0 {
      var q := 1.0 + r;
      var prev := Pow(q, n - 1);
      PowGrowthBound(r, n - 1);
      PowAtLeastOne(q, n - 1);
      assert Pow(q, n) == prev + r * prev;
      assert r * prev <= r * Pow(q, n);
      assert ((n - 1) as real) * r * prev <= ((n - 1) as real) * r * Pow(q, n);
      calc {
        Pow(q, n) - 1.0;
        == (prev - 1.0) + r * prev;
        <= ((n - 1) as real) * r * prev + r * prev;
        <= ((n - 1) as real) * r * Pow(q, n) + r * Pow(q, n);
        == (n as real) * r * Pow(q, n);
      }
    }
  }

  /** The monthly rate derived from an annual rate given as a fraction. */
  function MonthlyRate(annualRate: real): (r: real)
    ensures 12.0 * r == annualRate
    ensures r == 0.0 <==> annualRate == 0.0
  {
    annualRate / 12.0
  }

  /** The number of monthly payments in a term of whole years. */
  function TotalMonths(years: nat): (n: nat)
    ensures n % 12 == 0 && n / 12 == years
  {
    years * 12
  }

  /**
   * The constant monthly instalment for `principal` borrowed at
   * `annualRate` (a fraction, 0.11 for 11%) over `years` years.
   */
  function MonthlyPayment(principal: real, annualRate: real, years: nat): (m: real)
    requires annualRate >= 0.0 && years >= 1
    ensures principal >= 0.0 ==> m >= 0.0
    ensures principal > 0.0 ==> m > 0.0
  {
    var r := MonthlyRate(annualRate);
    var n := TotalMonths(years);
    if r == 0.0 then
      principal / (n as real)
    else
      PowAboveOne(1.0 + r, n);
      QuotientSign(principal * (r * Pow(1.0 + r, n)), Pow(1.0 + r, n) - 1.0);
      principal * (r * Pow(1.0 + r, n)) / (Pow(1.0 + r, n) - 1.0)
  }

  /** Dividing by a positive amount keeps the sign. */
  lemma QuotientSign(a: real, b: real)
    requires b > 0.0
    ensures a >= 0.0 ==> a / b >= 0.0
    ensures a > 0.0 ==> a / b > 0.0
  {
  }

  /**
   * For a positive rate, the instalment times the annuity denominator is the
   * principal's interest on the compounded amount: M * ((1+r)^n - 1) = P * r * (1+r)^n.
   * This is the division-free form of the annuity formula.
   */
  lemma AnnuityIdentity(principal: real, annualRate: real, years: nat)
    requires annualRate > 0.0 && years >= 1
    ensures var r := MonthlyRate(annualRate);
            var qn := Pow(1.0 + r, TotalMonths(years));
            qn > 1.0 &&
            MonthlyPayment(principal, annualRate, years) * (qn - 1.0) == principal * r * qn
  {
    var r := MonthlyRate(annualRate);
    var n := TotalMonths(years);
    PowAboveOne(1.0 + r, n);
  }

  /** The instalment always covers the first month's interest on the principal. */
  lemma PaymentCoversInterest(principal: real, annualRate: real, years: nat)
    requires principal >= 0.0 && annualRate >= 0.0 && years >= 1
    ensures MonthlyPayment(principal, annualRate, years) >= principal * MonthlyRate(annualRate)
  {
    var r := MonthlyRate(annualRate);
    var m := MonthlyPayment(principal, annualRate, years);
    if r != 0.0 {
      AnnuityIdentity(principal, annualRate, years);
      var qn := Pow(1.0 + r, TotalMonths(years));
      assert m * (qn - 1.0) == principal * r * (qn - 1.0) + principal * r;
      assert m * (qn - 1.0) >= principal * r * (qn - 1.0);
    }
  }

  /**
   * Over the whole term the instalments repay at least the principal, so the
   * total interest is never negative.
   */
  lemma PaymentsCoverPrincipal(principal: real, annualRate: real, years: nat)
    requires principal >= 0.0 && annualRate >= 0.0 && years >= 1
    ensures MonthlyPayment(principal, annualRate, years) * (TotalMonths(years) as real) >= principal
  {
    var r := MonthlyRate(annualRate);
    var n := TotalMonths(years);
    var m := MonthlyPayment(principal, annualRate, years);
    if r != 0.0 {
      AnnuityIdentity(principal, annualRate, years);
      var qn := Pow(1.0 + r, n);
      var d := qn - 1.0;
      var total := m * (n as real);
      PowGrowthBound(r, n);
      ScaleLe(principal, d, (n as real) * r * qn);
      assert total * d == (n as real) * (m * d);
      assert total * d == principal * ((n as real) * r * qn);
      assert total * d >= principal * d;
      CancelPositive(total, principal, d);
    }
  }

  // Facts of ordered-field arithmetic that the solver needs spelled out.

  lemma ScaleLe(k: real, a: real, b: real)
    requires k >= 0.0 && a <= b
    ensures k * a <= k * b
  {
  }

  lemma CancelPositive(x: real, y: real, d: real)
    requires d > 0.0 && x * d >= y * d
    ensures x >= y
  {
    assert (x - y) * d >= 0.0;
  }

  lemma SameSolution(x: real, y: real, d: real, c: real)
    requires d != 0.0 && x * d == c && y * d == c
    ensures x == y
  {
    CancelNonZero(x, y, d);
  }

  lemma ProductNonNegative(a: real, b: real)
    requires a >= 0.0 && b >= 0.0
    ensures a * b >= 0.0
  {
  }

  lemma NonNegativeFactor(x: real, d: real, c: real)
    requires d > 0.0 && c >= 0.0 && x * d == c
    ensures x >= 0.0
  {
  }

  /** A quotient scaled to a percentage, multiplied back by the whole. */
  lemma PercentOf(part: real, whole: real)
    requires whole > 0.0
    ensures (part / whole) * 100.0 * whole == part * 100.0
    ensures part >= 0.0 ==> (part / whole) * 100.0 >= 0.0
  {
    QuotientSign(part, whole);
  }

  lemma CancelNonZero(x: real, y: real, d: real)
    requires d != 0.0 && x * d == y * d
    ensures x == y
  {
    assert (x - y) * d == 0.0;
  }
}
