/**
 * The dividend (DRIP) calculator. Each projected year adds twelve monthly
 * contributions to the principal, pays `dividendRate`% of the principal as that
 * year's dividend, reinvests the dividend when DRIP is on, records a row, and then
 * grows the principal by `dividendGrowth`%. The row records the principal BEFORE that
 * growth step. Money and rates are exact reals.
 */
module DividendCalculator {
  import opened Wrappers

  /** The calculator's inputs (rates are percentages). */
  datatype Inputs = Inputs(
    initialInvestment: real,
    dividendRate: real,
    dividendGrowth: real,
    years: int,
    monthlyContribution: real,
    drip: bool)

  /** One entry of `yearlyData`. */
  datatype YearRow = YearRow(year: int, principal: real, dividends: real)

  /** The object `calculate` stores as its result. */
  datatype Projection = Projection(
    finalBalance: real,
    totalDividends: real,
    annualDividendIncome: real,
    monthlyPassiveIncome: real,
    data: seq<YearRow>)

  /** The loop's variables after some number of completed years. */
  datatype Ledger = Ledger(principal: real, totalDividends: real, lastDividend: real, rows: seq<YearRow>)

  /** The growth factor applied at the end of every year. */
  function GrowthFactor(p: Inputs): real {
    1.0 + p.dividendGrowth / 100.0
  }

  /** The principal once a year's twelve contributions are in. */
  function Funded(p: Inputs, prev: real): real {
    prev + p.monthlyContribution * 12.0
  }

  /** The dividend a year pays: `dividendRate`% of the funded principal. */
  function YearDividend(p: Inputs, prev: real): real {
    Funded(p, prev) * (p.dividendRate / 100.0)
  }

  /** The principal the year's row records: with the dividend added back under DRIP. */
  function Held(p: Inputs, prev: real): real {
    if p.drip then Funded(p, prev) + YearDividend(p, prev) else Funded(p, prev)
  }

  /** The closing principal of one year, from the previous year's closing principal. */
  function NextPrincipal(p: Inputs, prev: real): real {
    Held(p, prev) * GrowthFactor(p)
  }

  /** One iteration of the yearly loop, for year `yr`. */
  function YearStep(p: Inputs, l: Ledger, yr: int): Ledger {
    var dividend := YearDividend(p, l.principal);
    Ledger(NextPrincipal(p, l.principal), l.totalDividends + dividend, dividend,
           l.rows + [YearRow(yr, Held(p, l.principal), dividend)])
  }

  /** The loop's variables after `n` years. */
  function Run(p: Inputs, n: nat): (l: Ledger)
    ensures |l.rows| == n
  {
    if n == 0 then Ledger(p.initialInvestment, 0.0, 0.0, []) else YearStep(p, Run(p, n - 1), n)
  }

  /** How many times the loop `for (yr = 1; yr <= years; yr++)` runs. */
  function YearsRun(p: Inputs): nat {
    if p.years > 0 then p.years else 0
  }

  function SumDividends(rows: seq<YearRow>): real {
    if rows == [] then 0.0 else SumDividends(rows[..|rows| - 1]) + rows[|rows| - 1].dividends
  }

  function Last(rows: seq<YearRow>): YearRow
    requires rows != []
  {
    rows[|rows| - 1]
  }

  /** The result of `calculate`, read off the loop's final state. */
  function Project(p: Inputs): (r: Projection)
    ensures |r.data| == YearsRun(p)
    ensures forall i :: 0 <= i < |r.data| ==> r.data[i].year == i + 1
    ensures r.totalDividends == SumDividends(r.data)
    ensures r.annualDividendIncome == if r.data == [] then 0.0 else Last(r.data).dividends
    ensures r.monthlyPassiveIncome * 12.0 == r.annualDividendIncome
    ensures r.data == [] ==> r.finalBalance == p.initialInvestment
    ensures r.data != [] ==> r.finalBalance == Last(r.data).principal * GrowthFactor(p)
  {
    var l := Run(p, YearsRun(p));
    RunShape(p, YearsRun(p));
    RunTotals(p, YearsRun(p));
    LastYear(p, YearsRun(p));
    Projection(l.principal, l.totalDividends, l.lastDividend, l.lastDividend / 12.0, l.rows)
  }

  /** `calculate`: the yearly loop, mutating the running principal, totals and rows. */
  method Calculate(p: Inputs) returns (r: Projection)
    ensures r == Project(p)
  {
    var currentPrincipal := p.initialInvestment;
    var totalDividends := 0.0;
    var yearlyData: seq<YearRow> := [];
    var annualDividendIncome := 0.0;
    var yr := 1;
    while yr <= p.years
      invariant 1 <= yr <= YearsRun(p) + 1
      invariant Run(p, yr - 1) == Ledger(currentPrincipal, totalDividends, annualDividendIncome, yearlyData)
    {
      ghost var next := YearStep(p, Run(p, yr - 1), yr);
      assert Run(p, yr) == next;
      var annualYieldDecimal := p.dividendRate / 100.0;
      currentPrincipal := currentPrincipal + p.monthlyContribution * 12.0;
      var annualDiv := currentPrincipal * annualYieldDecimal;
      if p.drip {
        currentPrincipal := currentPrincipal + annualDiv;
      }
      totalDividends := totalDividends + annualDiv;
      annualDividendIncome := annualDiv;
      yearlyData := yearlyData + [YearRow(yr, currentPrincipal, annualDiv)];
      currentPrincipal := currentPrincipal * (1.0 + p.dividendGrowth / 100.0);
      assert next.principal == currentPrincipal;
      assert next.totalDividends == totalDividends;
      assert next.lastDividend == annualDividendIncome;
      assert next.rows == yearlyData;
      yr := yr + 1;
    }
    r := Projection(currentPrincipal, totalDividends, annualDividendIncome, annualDividendIncome / 12.0, yearlyData);
  }

  /** The loop records exactly one row per year, numbered from 1. */
  lemma {:induction false} RunShape(p: Inputs, n: nat)
    ensures forall i :: 0 <= i < n ==> Run(p, n).rows[i].year == i + 1
  {
    if n > 0 {
      RunShape(p, n - 1);
      assert Run(p, n).rows == Run(p, n - 1).rows + [YearRow(n, Run(p, n).rows[n - 1].principal, Run(p, n).lastDividend)];
    }
  }

  /** A later year never rewrites the rows of the earlier ones. */
  lemma {:induction false} RunKeepsRows(p: Inputs, n: nat, k: nat)
    requires k <= n
    ensures Run(p, n).rows[..k] == Run(p, k).rows
  {
    if k < n {
      RunKeepsRows(p, n - 1, k);
      assert Run(p, n).rows[..n - 1] == Run(p, n - 1).rows;
      assert Run(p, n).rows[..k] == Run(p, n).rows[..n - 1][..k];
    }
  }

  /** The running total is the sum of the rows' dividends. */
  lemma {:induction false} RunTotals(p: Inputs, n: nat)
    ensures Run(p, n).totalDividends == SumDividends(Run(p, n).rows)
  {
    if n > 0 {
      RunTotals(p, n - 1);
      var prev := Run(p, n - 1);
      var rows := Run(p, n).rows;
      assert Run(p, n) == YearStep(p, prev, n);
      assert rows[..|rows| - 1] == prev.rows;
    }
  }

  /** The last dividend is the last row's, and the closing principal is its principal grown once. */
  lemma LastYear(p: Inputs, n: nat)
    ensures n == 0 ==> Run(p, n).lastDividend == 0.0
    ensures n > 0 ==> Run(p, n).lastDividend == Run(p, n).rows[n - 1].dividends
    ensures n > 0 ==> Run(p, n).principal == Run(p, n).rows[n - 1].principal * GrowthFactor(p)
  {
    if n > 0 {
      assert Run(p, n) == YearStep(p, Run(p, n - 1), n);
    }
  }

  /**
   * The row a year records: it pays `dividendRate`% of the previous year's closing
   * principal plus twelve contributions, and its principal is that amount, plus the
   * dividend under DRIP, taken before the year's growth step.
   */
  lemma YearRecordsPreGrowthRow(p: Inputs, m: nat)
    requires m > 0
    ensures Run(p, m).rows[m - 1].year == m
    ensures Run(p, m).rows[m - 1].dividends
         == (Run(p, m - 1).principal + p.monthlyContribution * 12.0) * (p.dividendRate / 100.0)
    ensures Run(p, m).rows[m - 1].principal
         == Run(p, m - 1).principal + p.monthlyContribution * 12.0
            + (if p.drip then Run(p, m).rows[m - 1].dividends else 0.0)
    ensures Run(p, m).principal == Run(p, m).rows[m - 1].principal * GrowthFactor(p)
  {
    assert Run(p, m) == YearStep(p, Run(p, m - 1), m);
  }

  /** Row `i` of a longer run is the row year `i + 1` recorded. */
  lemma RowOfLongerRun(p: Inputs, n: nat, i: nat)
    requires i < n
    ensures Run(p, n).rows[i] == Run(p, i + 1).rows[i]
  {
    RunKeepsRows(p, n, i + 1);
    assert Run(p, n).rows[i] == Run(p, n).rows[..i + 1][i];
  }

  /** With no years to run the inputs come back untouched. */
  lemma NoYears(p: Inputs)
    requires p.years <= 0
    ensures Project(p) == Projection(p.initialInvestment, 0.0, 0.0, 0.0, [])
  {
  }

  /** Without DRIP and without growth the balance is the plain sum of what was paid in. */
  lemma {:induction false} NoDripNoGrowthBalance(p: Inputs, n: nat)
    requires !p.drip && p.dividendGrowth == 0.0
    ensures Run(p, n).principal == p.initialInvestment + 12.0 * p.monthlyContribution * n as real
  {
    if n > 0 {
      NoDripNoGrowthBalance(p, n - 1);
    }
  }

  /** The closing principal after `n` years, without the rest of the ledger. */
  function Principal(p: Inputs, n: nat): real {
    if n == 0 then p.initialInvestment else NextPrincipal(p, Principal(p, n - 1))
  }

  lemma {:induction false} RunPrincipal(p: Inputs, n: nat)
    ensures Run(p, n).principal == Principal(p, n)
  {
    if n > 0 {
      RunPrincipal(p, n - 1);
      assert Run(p, n).principal == YearStep(p, Run(p, n - 1), n).principal;
    }
  }

  /** One year keeps a non-negative principal non-negative, and a larger one larger. */
  lemma NextPrincipalMonotone(p: Inputs, x: real, y: real)
    requires p.monthlyContribution >= 0.0 && p.dividendRate >= 0.0 && p.dividendGrowth >= -100.0
    requires x >= y >= 0.0
    ensures NextPrincipal(p, x) >= NextPrincipal(p.(drip := false), y) >= 0.0
  {
    var fx, fy := Funded(p, x), Funded(p, y);
    MulNonNegative(fx, p.dividendRate / 100.0);
    var held := Held(p, x);
    assert held >= fy >= 0.0;
    assert Held(p.(drip := false), y) == fy;
    MulMonotone(held, fy, GrowthFactor(p));
    MulNonNegative(fy, GrowthFactor(p));
  }

  lemma {:induction false} BalanceNonNegative(p: Inputs, n: nat)
    requires p.initialInvestment >= 0.0 && p.monthlyContribution >= 0.0 && p.dividendRate >= 0.0
    requires p.dividendGrowth >= -100.0
    ensures Run(p, n).principal >= 0.0
  {
    PrincipalNonNegative(p, n);
    RunPrincipal(p, n);
  }

  lemma {:induction false} PrincipalNonNegative(p: Inputs, n: nat)
    requires p.initialInvestment >= 0.0 && p.monthlyContribution >= 0.0 && p.dividendRate >= 0.0
    requires p.dividendGrowth >= -100.0
    ensures Principal(p, n) >= 0.0
  {
    if n > 0 {
      PrincipalNonNegative(p, n - 1);
      var prev := Principal(p, n - 1);
      NextPrincipalMonotone(p.(drip := false), prev, prev);
      assert p.(drip := false).(drip := false) == p.(drip := false);
      if p.drip {
        NextPrincipalMonotone(p, prev, prev);
      } else {
        assert p == p.(drip := false);
      }
    }
  }

  lemma MulNonNegative(a: real, b: real)
    requires a >= 0.0 && b >= 0.0
    ensures a * b >= 0.0
  {
  }

  lemma MulMonotone(a: real, b: real, c: real)
    requires a >= b && c >= 0.0
    ensures a * c >= b * c
  {
  }

  /**
   * Reinvesting never ends with less: for non-negative amounts and a growth rate above
   * -100%, the DRIP balance is at least the balance without DRIP, year after year.
   */
  lemma {:induction false} DripDominates(p: Inputs, n: nat)
    requires p.initialInvestment >= 0.0 && p.monthlyContribution >= 0.0 && p.dividendRate >= 0.0
    requires p.dividendGrowth >= -100.0
    ensures Run(p.(drip := true), n).principal >= Run(p.(drip := false), n).principal
  {
    var on, off := p.(drip := true), p.(drip := false);
    PrincipalDominates(p, n);
    RunPrincipal(on, n);
    RunPrincipal(off, n);
  }

  lemma {:induction false} PrincipalDominates(p: Inputs, n: nat)
    requires p.initialInvestment >= 0.0 && p.monthlyContribution >= 0.0 && p.dividendRate >= 0.0
    requires p.dividendGrowth >= -100.0
    ensures Principal(p.(drip := true), n) >= Principal(p.(drip := false), n) >= 0.0
  {
    var on, off := p.(drip := true), p.(drip := false);
    if n > 0 {
      PrincipalDominates(p, n - 1);
      NextPrincipalMonotone(on, Principal(on, n - 1), Principal(off, n - 1));
      assert on.(drip := false) == off;
    }
  }

  /** The final balances of the two policies, as the calculator reports them. */
  lemma DripDominatesFinalBalance(p: Inputs)
    requires p.initialInvestment >= 0.0 && p.monthlyContribution >= 0.0 && p.dividendRate >= 0.0
    requires p.dividendGrowth >= -100.0
    ensures Project(p.(drip := true)).finalBalance >= Project(p.(drip := false)).finalBalance
  {
    DripDominates(p, YearsRun(p));
  }

  /** The two slices of the pie chart. */
  datatype Breakdown = Breakdown(principalInvested: real, capitalGainAndDrip: real)

  /** What was paid in over the horizon: the initial investment plus every contribution. */
  function Invested(p: Inputs): real {
    p.initialInvestment + p.monthlyContribution * 12.0 * p.years as real
  }

  /**
   * `chartData`: what was paid in, and what the projection gained beyond it (0 while
   * no result has been computed yet).
   */
  function ChartData(p: Inputs, result: Option<Projection>): (b: Breakdown)
    ensures b.principalInvested == Invested(p)
    ensures result.Some? ==> b.principalInvested + b.capitalGainAndDrip == result.value.finalBalance
    ensures result.None? ==> b.capitalGainAndDrip == 0.0
  {
    Breakdown(Invested(p), if result.Some? then result.value.finalBalance - Invested(p) else 0.0)
  }

  /** Without DRIP and without growth there is nothing beyond what was paid in. */
  lemma NoDripNoGrowthGainsNothing(p: Inputs)
    requires !p.drip && p.dividendGrowth == 0.0 && p.years >= 0
    ensures ChartData(p, Some(Project(p))).capitalGainAndDrip == 0.0
  {
    var n := YearsRun(p);
    assert n as real == p.years as real;
    assert Project(p).finalBalance == Run(p, n).principal;
    NoDripNoGrowthBalance(p, n);
  }

  /** A JavaScript number produced by a division: finite, an infinity, or NaN. */
  datatype JsQuotient = Finite(value: real) | Infinity(positive: bool) | NaN

  /** JavaScript's `a / b` on finite operands. */
  function JsDivide(a: real, b: real): (q: JsQuotient)
    ensures b != 0.0 ==> q.Finite? && q.value * b == a
    ensures b == 0.0 ==> (q == NaN <==> a == 0.0) && (q.Infinity? <==> a != 0.0)
    ensures q.Infinity? ==> q.positive == (a > 0.0)
  {
    if b != 0.0 then Finite(a / b) else if a == 0.0 then NaN else Infinity(a > 0.0)
  }

  function JsTimes100(q: JsQuotient): JsQuotient {
    match q
    case Finite(v) => Finite(v * 100.0)
    case _ => q
  }

  /**
   * Yield on cost: the last year's dividend as a percentage of everything paid in.
   * The division is unguarded: when nothing was paid in the page shows `NaN` or
   * `Infinity`. Before the first result it shows 0.
   */
  function YieldOnCost(p: Inputs, result: Option<Projection>): (y: JsQuotient)
    ensures result.None? ==> y == Finite(0.0)
    ensures result.Some? && Invested(p) != 0.0 ==>
              y.Finite? && y.value * Invested(p) == result.value.annualDividendIncome * 100.0
    ensures result.Some? && Invested(p) == 0.0 ==> !y.Finite?
  {
    if result.None? then Finite(0.0)
    else JsTimes100(JsDivide(result.value.annualDividendIncome, Invested(p)))
  }

  /** Without DRIP and without growth, the yield on cost is the dividend rate itself. */
  lemma FlatYieldOnCost(p: Inputs)
    requires !p.drip && p.dividendGrowth == 0.0 && p.years > 0 && Invested(p) != 0.0
    ensures YieldOnCost(p, Some(Project(p))) == Finite(p.dividendRate)
  {
    FlatIncome(p);
    ShareOfWhole(Project(p).annualDividendIncome, Invested(p), p.dividendRate);
  }

  /** Without DRIP and without growth, the last year pays the dividend rate on everything paid in. */
  lemma FlatIncome(p: Inputs)
    requires !p.drip && p.dividendGrowth == 0.0 && p.years > 0
    ensures Project(p).annualDividendIncome == Invested(p) * (p.dividendRate / 100.0)
  {
    var n := YearsRun(p);
    var prev := Run(p, n - 1).principal;
    assert Project(p).annualDividendIncome == YearDividend(p, prev) by {
      LastDividendOfRun(p, n);
    }
    FlatFunded(p, n);
  }

  lemma LastDividendOfRun(p: Inputs, n: nat)
    requires n > 0
    ensures Run(p, n).lastDividend == YearDividend(p, Run(p, n - 1).principal)
  {
    assert Run(p, n).lastDividend == YearStep(p, Run(p, n - 1), n).lastDividend;
  }

  /** Without DRIP and without growth, the last year's funded principal is everything paid in. */
  lemma FlatFunded(p: Inputs, n: nat)
    requires !p.drip && p.dividendGrowth == 0.0 && n > 0 && n == p.years
    ensures Funded(p, Run(p, n - 1).principal) == Invested(p)
  {
    var m := p.monthlyContribution;
    NoDripNoGrowthBalance(p, n - 1);
    assert 12.0 * m * (n - 1) as real + m * 12.0 == m * 12.0 * n as real;
  }

  /** An amount that is `percent`% of a non-zero whole is shown as `percent`. */
  lemma ShareOfWhole(part: real, whole: real, percent: real)
    requires whole != 0.0 && part == whole * (percent / 100.0)
    ensures JsTimes100(JsDivide(part, whole)) == Finite(percent)
  {
    assert part / whole == percent / 100.0;
  }

  /** A ten-thousand investment at 5% for one year with DRIP ends at 10,500 after 500 of dividends. */
  lemma OneYearDripExample()
    ensures var r := Project(Inputs(10000.0, 5.0, 0.0, 1, 0.0, true));
            r.finalBalance == 10500.0 && r.totalDividends == 500.0 && r.data == [YearRow(1, 10500.0, 500.0)]
  {
    var p := Inputs(10000.0, 5.0, 0.0, 1, 0.0, true);
    assert YearDividend(p, 10000.0) == 500.0;
    assert Held(p, 10000.0) == 10500.0;
    assert Run(p, 1) == YearStep(p, Run(p, 0), 1);
  }
}
