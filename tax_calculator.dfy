/**
 * The tax estimate of the tax calculator: a closed table of three income types.
 * US dividends are taxed at a 15% treaty rate, Korean dividends at 15.4%, and US
 * capital gains at 22% of what exceeds a fixed 2,500,000 deduction. Profit is what
 * remains of the income after tax.
 */
module TaxCalculator {

  /** The three options of the income-type select. */
  datatype IncomeType = DividendUs | DividendKr | CgtUs

  /** The capital-gains deduction, in won. */
  const CgtDeduction: real := 2500000.0

  function Max(a: real, b: real): real {
    if a >= b then a else b
  }

  /** `calculateTax`: the tax owed on `income` of the given type. */
  function CalculateTax(income: real, kind: IncomeType): (tax: real)
    // the dividend types are flat taxes: the tax has the sign of the income and is
    // a fixed fraction of it
    ensures kind == DividendUs && income != 0.0 ==> tax / income == 0.15
    ensures kind == DividendKr && income != 0.0 ==> tax / income == 0.154
    ensures kind != CgtUs ==> (tax < 0.0 <==> income < 0.0) && (tax == 0.0 <==> income == 0.0)
    // capital gains are taxed only above the deduction, and never negatively
    ensures kind == CgtUs ==> tax >= 0.0
    ensures kind == CgtUs ==> (tax == 0.0 <==> income <= CgtDeduction)
    ensures kind == CgtUs && income > CgtDeduction ==> tax / (income - CgtDeduction) == 0.22
  {
    match kind
    case DividendUs =>
      RatioOfScaled(income, 0.15);
      income * 0.15
    case DividendKr =>
      RatioOfScaled(income, 0.154);
      income * 0.154
    case CgtUs =>
      var taxBase := Max(0.0, income - CgtDeduction);
      RatioOfScaled(taxBase, 0.22);
      taxBase * 0.22
  }

  /** Dividing a scaled amount by the amount gives back the scale. */
  lemma RatioOfScaled(x: real, k: real)
    ensures x != 0.0 ==> (x * k) / x == k
  {
    if x != 0.0 {
      var q := (x * k) / x;
      assert q * x == x * k;
      assert (q - k) * x == 0.0;
    }
  }

  /** `profit`: the income left after tax. */
  function Profit(income: real, kind: IncomeType): (profit: real)
    ensures CalculateTax(income, kind) + profit == income
    // a non-negative income keeps at least 78% of itself under every rule
    ensures income >= 0.0 ==> 0.78 * income <= profit <= income
  {
    income - CalculateTax(income, kind)
  }

  /** The worked example: 1,000,000 of US dividends owes 150,000 and keeps 850,000. */
  lemma UsDividendExample()
    ensures CalculateTax(1000000.0, DividendUs) == 150000.0
    ensures Profit(1000000.0, DividendUs) == 850000.0
  {
  }

  /** The dividend rules are linear in the income, so a negative income gives a negative tax. */
  lemma DividendTaxIsLinear(a: real, b: real, k: real, kind: IncomeType)
    requires kind != CgtUs
    ensures CalculateTax(a + b, kind) == CalculateTax(a, kind) + CalculateTax(b, kind)
    ensures CalculateTax(k * a, kind) == k * CalculateTax(a, kind)
    ensures a < 0.0 ==> CalculateTax(a, kind) < 0.0
  {
  }

  /** A larger income never owes less tax, and never leaves less profit. */
  lemma MoreIncomeMoreTaxAndProfit(a: real, b: real, kind: IncomeType)
    requires a <= b
    ensures CalculateTax(a, kind) <= CalculateTax(b, kind)
    ensures Profit(a, kind) <= Profit(b, kind)
  {
  }
}
