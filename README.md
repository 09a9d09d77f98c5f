# Lease calculator: fixed-rate instalment and amortisation schedule

This project models the financial arithmetic of the leasing calculator in Dafny and proves facts about it. The calculator is a single Streamlit page, `app.py`. The model covers three parts:

- **Annuity** (`annuity.dfy`): `calculate_monthly_payment`. The annual rate is a fraction. The monthly rate is the annual rate / 12 and the term is years × 12 months. A zero rate gives the equal split `P / n`. Any other rate gives the standard annuity instalment `P · r(1+r)^n / ((1+r)^n − 1)`. `Pow` is the integer power `(1+r)^n`.
- **Amortisation** (`amortisation.dfy`): the schedule walk in `main`. Each month the interest is the balance × the monthly rate, and the principal part is the instalment less that interest. The balance falls by the principal part, and a line is added to the table. The `Schedule` method keeps the source's loop: a balance variable updated in place and a growing sequence of lines. The `Balance` function (the balance after k months) specifies it. The main theorem is that the annuity instalment, paid for the whole term, leaves a balance of exactly zero. It is also the only constant instalment that does so (`FinalBalanceIsZero`, `PaymentIsUnique`).
- **Calculator** (`calculator.dfy`): the branch that runs when the button is pressed. It converts the percentage to a fraction and computes the instalment. It then computes the total paid, the total interest, and the interest as a percentage of the lease amount. Finally it builds the twelve-month preview. The form's widget ranges are the method's precondition: a whole lease amount ≥ 0, 1–30 years, and 0–50 %.

All quantities are exact rationals (`real`).

A zero lease amount is not rejected up front. In `app.py` the percentage on line 89 then divides 0.0 by the integer 0. That raises a division-by-zero error after the instalment has been displayed and before the summary and the preview appear. The model returns this case as `Outcome.InterestPercentFault` and keeps the instalment.

`app.py` computes only the first 12 months (`range(1, 13)`), and `Calculator.Calculate` does the same. `Amortisation.Schedule` takes any number of months, and the full-term facts are lemmas.

## Model

| member | source | states |
|---|---|---|
| Annuity.MonthlyRate | app.py:16 | the monthly rate is one twelfth of the annual rate, and it is zero exactly when the annual rate is zero |
| Annuity.TotalMonths | app.py:17 | the number of payments is a whole multiple of twelve whose twelfth is the number of years |
| Annuity.MonthlyPayment | app.py:4-23 | for a non-negative rate and at least one year, the instalment exists (no division by zero) and is non-negative, and positive for a positive principal |
| Annuity.AnnuityIdentity | app.py:22 | at a positive rate, (1+r)^n > 1 and the instalment solves M·((1+r)^n − 1) = P·r·(1+r)^n |
| Annuity.PaymentCoversInterest | app.py:22 | the instalment is at least the first month's interest P·r, so no line of the schedule starts by adding to the debt |
| Annuity.PaymentsCoverPrincipal | app.py:82-83 | n instalments total at least the principal, so the total interest is never negative |
| Annuity.PowAtLeastOne | app.py:22 | a growth factor of at least one, raised to any power, is at least one |
| Annuity.PowAboveOne | app.py:22 | a growth factor above one, raised to a power of at least one, exceeds one, so the annuity denominator (1+r)^n − 1 is positive |
| Annuity.PowMonotone | app.py:22 | for a growth factor of at least one, (1+r)^j ≤ (1+r)^k whenever j ≤ k |
| Annuity.PowGrowthBound | app.py:22 | (1+r)^n − 1 ≤ n·r·(1+r)^n for r ≥ 0, the bound behind the non-negative total interest |
| Amortisation.Step | app.py:100-102 | one month takes the opening balance B to B·(1+r) − M |
| Amortisation.Schedule | app.py:95-110 | the loop produces exactly `months` lines, line i is month i+1 of the schedule opened at the principal, the final balance variable is `Balance` after `months` months, and the last line shows that balance |
| Amortisation.MonthRow | app.py:100-110 | one line of the table: its month and instalment as given, the interest is the opening balance × the rate, principal part + interest = instalment, and the closing balance is the opening balance less the principal part |
| Amortisation.IsScheduleOf | app.py:99-110 | in a schedule, months are numbered 1, 2, … in order, every line shows the same instalment split as principal part + interest, and each balance is the previous line's balance (the principal for the first line) less that line's principal part |
| Amortisation.SchedulePrefix | app.py:99 | a shorter schedule of the same loan is a prefix of a longer one, so the twelve-month preview is the start of the full-term schedule |
| Amortisation.BalanceTimesRate | app.py:100-102 | closed form of the walk: r·B(k) = P·r·(1+r)^k − M·((1+r)^k − 1) |
| Amortisation.BalanceAtZeroRate | app.py:100-102 | at a zero rate the balance after k months is P − k·M |
| Amortisation.AnnuityBalance | app.py:22 | with the annuity instalment, B(k)·((1+r)^n − 1) = P·((1+r)^n − (1+r)^k) at a positive rate and B(k)·n = P·(n − k) at a zero rate |
| Amortisation.ClearsAtPositiveRate | app.py:22 | at a positive rate, a constant instalment clears the loan in n months if and only if it solves M·((1+r)^n − 1) = P·r·(1+r)^n |
| Amortisation.ClearsOnlyWith | app.py:22 | at a positive rate, the solution of the annuity equation is the only instalment that clears the loan in n months |
| Amortisation.ClearsAtZeroRate | app.py:19-20 | at a zero rate, an instalment clears the loan in n months if and only if it is P / n |
| Amortisation.FinalBalanceIsZero | app.py:4-23 | the walk of app.py:99-102, run for years·12 months at the computed instalment, ends at a balance of exactly 0 |
| Amortisation.PaymentIsUnique | app.py:16-23 | a constant instalment brings the balance to 0 after years·12 months if and only if it equals the computed instalment |
| Amortisation.BalanceNonIncreasing | app.py:100-102 | when the instalment covers the interest on the principal and the rate is ≥ 0, the balance never exceeds the principal and never rises from one month to the next |
| Amortisation.AnnuityBalanceBounds | app.py:95-102 | with the annuity instalment, for every month within the term the balance lies between 0 and the principal and does not rise in the next month |
| Amortisation.AnnuityScheduleBounds | app.py:99-110 | every line of an annuity schedule within the term shows a balance in [0, principal] that is no higher than the line before |
| Amortisation.ScheduleTotals | app.py:99-110 | over k lines, the instalments total k·M, the principal parts total P − B(k), and the interest parts total k·M − P + B(k) |
| Amortisation.FullTermTotals | app.py:82-83 | over the full term at the annuity instalment, the last line shows a zero balance and the principal parts sum to the principal. The instalments sum to M·years·12 (the total paid of line 82), and the interest column sums to that total less the principal (the total interest of line 83) |
| Calculator.ValidInputs | app.py:49-65 | within the form's ranges (1–30 years, 0–50 %) the twelve-month preview never runs past the term, and the monthly rate lies between 0 and 0.5 / 12 |
| Calculator.Calculate | app.py:71-112 | the instalment is that of the fraction rate% / 100, and a zero lease amount ends in the division fault and nothing else does. Otherwise the total paid is M·years·12, total interest + principal = total paid, the percentage × principal = interest × 100, and the interest and its percentage are ≥ 0. The preview is exactly 12 schedule lines at rate% / 100 / 12, each with a balance in [0, principal], non-increasing from line to line |

## Left out

- Streamlit: the page configuration, columns, headers, input widgets, button, message boxes, data frame and sidebar (app.py:26-69, 79, 85-93, 112-137) are presentation. Only the widgets' numeric ranges survive, as `Calculator.ValidInputs`.
- Formatting: the amounts in the table and the messages are strings with two decimals and an "LKR" label (app.py:79, 87-89, 106-109). The model's lines are numeric `Row` records.
- Floating point: the source computes in IEEE-754 doubles, and the model uses exact rationals. The zero final balance therefore holds exactly in the model and only approximately in the source. Rounding is not modelled.
- The `if __name__ == "__main__"` entry point (app.py:139-140) only starts the page.
- Inputs outside the form's ranges: the lemmas need only a non-negative rate and at least one year. `Calculate` also requires the form's upper bounds (30 years, 50 %), which none of its proofs use.
