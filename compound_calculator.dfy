/**
 * The compound-interest calculator. It records one snapshot per year, from year 0
 * (the starting principal) to `years`, and between two snapshots runs twelve monthly
 * steps, each adding the monthly contribution and then multiplying the balance by
 * `1 + r/12`. Money and rates are exact reals; the chart's balance is rounded as
 * `Math.round` rounds.
 */
module CompoundCalculator {

  /** The calculator's inputs (`rate` is an annual percentage). */
  datatype Inputs = Inputs(principal: real, monthly: real, rate: real, years: int)

  /** One point of the yearly chart. */
  datatype Snapshot = Snapshot(year: int, balance: int, invested: real)

  /** The object `calculate` stores as its result. */
  datatype Projection = Projection(futureValue: real, totalInvested: real, interestEarned: real, data: seq<Snapshot>)

  /** `Math.round`: the nearest integer, halves rounded towards +infinity. */
  function Round(x: real): (n: int)
    ensures x - 0.5 < n as real <= x + 0.5
  {
    (x + 0.5).Floor
  }

  /** The factor `1 + r / 12` applied once a month, with `r = rate / 100`. */
  function MonthlyFactor(p: Inputs): real {
    1.0 + p.rate / 100.0 / 12.0
  }

  /** One month: the contribution is added, then the month's interest. */
  function MonthStep(p: Inputs, b: real): real {
    (b + p.monthly) * MonthlyFactor(p)
  }

  /** The balance after `months` monthly steps starting from `b`. */
  function AfterMonths(p: Inputs, b: real, months: nat): real {
    if months == 0 then b else MonthStep(p, AfterMonths(p, b, months - 1))
  }

  /** The (unrounded) balance at the snapshot of year `yr`: `12 * yr` months from the principal. */
  function BalanceAt(p: Inputs, yr: nat): real {
    AfterMonths(p, p.principal, 12 * yr)
  }

  /** What has been paid in by year `yr`. */
  function InvestedAt(p: Inputs, yr: int): real {
    p.principal + p.monthly * 12.0 * yr as real
  }

  /** The snapshot the chart shows for year `yr`. */
  function SnapshotAt(p: Inputs, yr: nat): Snapshot {
    Snapshot(yr, Round(BalanceAt(p, yr)), InvestedAt(p, yr))
  }

  /** The last year the loop reaches; a negative horizon runs no year at all. */
  function Horizon(p: Inputs): nat {
    if p.years >= 0 then p.years else 0
  }

  /** The first `n` yearly snapshots. */
  function Snapshots(p: Inputs, n: nat): (s: seq<Snapshot>)
    ensures |s| == n
  {
    if n == 0 then [] else Snapshots(p, n - 1) + [SnapshotAt(p, n - 1)]
  }

  /** Snapshot `i` is the one of year `i`. */
  lemma {:induction false} SnapshotsAt(p: Inputs, n: nat)
    ensures forall i :: 0 <= i < n ==> Snapshots(p, n)[i] == SnapshotAt(p, i)
  {
    if n > 0 {
      SnapshotsAt(p, n - 1);
      assert Snapshots(p, n) == Snapshots(p, n - 1) + [SnapshotAt(p, n - 1)];
    }
  }

  /** The result `calculate` stores, stated from the inputs. */
  function Project(p: Inputs): (r: Projection)
    // one snapshot per year 0..years, none for a negative horizon
    ensures |r.data| == if p.years >= 0 then p.years + 1 else 0
    ensures forall i :: 0 <= i < |r.data| ==> r.data[i].year == i
    ensures forall i :: 0 <= i < |r.data| ==> r.data[i].invested == InvestedAt(p, i)
    ensures forall i :: 0 <= i < |r.data| ==> r.data[i].balance == Round(BalanceAt(p, i))
    // the future value is the balance after 12 * years monthly steps
    ensures r.futureValue == AfterMonths(p, p.principal, 12 * Horizon(p))
    ensures r.totalInvested == InvestedAt(p, p.years)
    ensures r.interestEarned == r.futureValue - r.totalInvested
    // year 0 is the starting principal; with no year to run nothing else happens
    ensures p.years >= 0 ==> r.data[0].invested == p.principal && r.data[0].balance == Round(p.principal)
    ensures p.years <= 0 ==> r.futureValue == p.principal
    // the reported total invested is the last snapshot's
    ensures p.years >= 0 ==> r.totalInvested == r.data[p.years].invested
  {
    var future := BalanceAt(p, Horizon(p));
    var total := InvestedAt(p, p.years);
    SnapshotsAt(p, if p.years >= 0 then p.years + 1 else 0);
    Projection(future, total, future - total, Snapshots(p, if p.years >= 0 then p.years + 1 else 0))
  }

  /** `calculate`: the yearly loop; its nested monthly loop is `MonthlyLoop`. */
  method Calculate(p: Inputs) returns (r: Projection)
    ensures r == Project(p)
  {
    var rate := p.rate / 100.0;
    var totalInvested := p.principal + p.monthly * 12.0 * p.years as real;
    var data: seq<Snapshot> := [];
    var currentBalance := p.principal;
    var yr := 0;
    while yr <= p.years
      invariant 0 <= yr <= Horizon(p) + 1
      invariant p.years < 0 ==> yr == 0
      invariant data == Snapshots(p, yr)
      invariant currentBalance == BalanceAt(p, if yr <= Horizon(p) then yr else Horizon(p))
    {
      PushSnapshot(p, yr, currentBalance);
      data := data + [Snapshot(yr, Round(currentBalance), p.principal + p.monthly * 12.0 * yr as real)];
      NextYearIsTwelveMonths(p, yr);
      currentBalance := MonthlyLoop(p, rate, yr, currentBalance);
      yr := yr + 1;
    }
    r := Projection(currentBalance, totalInvested, currentBalance - totalInvested, data);
  }

  /** The row the loop pushes for year `yr` is that year's snapshot. */
  lemma PushSnapshot(p: Inputs, yr: nat, balance: real)
    requires balance == BalanceAt(p, yr)
    ensures Snapshots(p, yr) + [Snapshot(yr, Round(balance), p.principal + p.monthly * 12.0 * yr as real)]
         == Snapshots(p, yr + 1)
  {
    calc {
      Snapshots(p, yr + 1);
      Snapshots(p, yr) + [SnapshotAt(p, yr)];
      Snapshots(p, yr) + [Snapshot(yr, Round(balance), InvestedAt(p, yr))];
      { assert InvestedAt(p, yr) == p.principal + p.monthly * 12.0 * yr as real; }
      Snapshots(p, yr) + [Snapshot(yr, Round(balance), p.principal + p.monthly * 12.0 * yr as real)];
    }
  }

  /**
   * The nested loop `for (m = 0; m < 12 && yr < years; m++)`: twelve monthly steps,
   * or none in the last year.
   */
  method MonthlyLoop(p: Inputs, rate: real, yr: int, balance: real) returns (b: real)
    requires rate == p.rate / 100.0
    ensures b == AfterMonths(p, balance, if yr < p.years then 12 else 0)
  {
    b := balance;
    var m := 0;
    while m < 12 && yr < p.years
      invariant 0 <= m <= 12
      invariant yr >= p.years ==> m == 0
      invariant b == AfterMonths(p, balance, m)
    {
      MonthStepOfLoop(p, b, rate);
      b := b + p.monthly;
      b := b * (1.0 + rate / 12.0);
      m := m + 1;
    }
  }

  /** The loop's two updates of one month are one `MonthStep`. */
  lemma MonthStepOfLoop(p: Inputs, b: real, rate: real)
    requires rate == p.rate / 100.0
    ensures (b + p.monthly) * (1.0 + rate / 12.0) == MonthStep(p, b)
  {
  }

  /** Running `m` months and then `n` more is running `m + n` months. */
  lemma {:induction false} MonthsCompose(p: Inputs, b: real, m: nat, n: nat)
    ensures AfterMonths(p, AfterMonths(p, b, m), n) == AfterMonths(p, b, m + n)
  {
    if n > 0 {
      MonthsCompose(p, b, m, n - 1);
    }
  }

  /** Each snapshot is exactly twelve monthly steps after the previous one. */
  lemma NextYearIsTwelveMonths(p: Inputs, yr: nat)
    ensures BalanceAt(p, yr + 1) == AfterMonths(p, BalanceAt(p, yr), 12)
  {
    MonthsCompose(p, p.principal, 12 * yr, 12);
  }

  /** At a zero rate the monthly steps only add up the contributions. */
  lemma {:induction false} ZeroRateIsSummation(p: Inputs, b: real, n: nat)
    requires p.rate == 0.0
    ensures AfterMonths(p, b, n) == b + p.monthly * n as real
  {
    if n > 0 {
      ZeroRateIsSummation(p, b, n - 1);
    }
  }

  /** At a zero rate the balance of every year is what has been paid in, so nothing is earned. */
  lemma ZeroRateEarnsNothing(p: Inputs, yr: nat)
    requires p.rate == 0.0
    ensures BalanceAt(p, yr) == InvestedAt(p, yr)
  {
    ZeroRateIsSummation(p, p.principal, 12 * yr);
  }

  /** At a zero rate the calculator reports a future value equal to what was paid in, and no interest. */
  lemma ZeroRateProjection(p: Inputs)
    requires p.rate == 0.0 && p.years >= 0
    ensures Project(p).futureValue == Project(p).totalInvested == p.principal + p.monthly * 12.0 * p.years as real
    ensures Project(p).interestEarned == 0.0
  {
    ZeroRateEarnsNothing(p, Horizon(p));
  }

  /** With monthly contributions that are not negative, the invested amount never decreases. */
  lemma InvestedNonDecreasing(p: Inputs, i: int, j: int)
    requires p.monthly >= 0.0 && i <= j
    ensures InvestedAt(p, i) <= InvestedAt(p, j)
  {
    assert p.monthly * 12.0 * j as real - p.monthly * 12.0 * i as real == p.monthly * 12.0 * (j - i) as real;
  }

  function Pow(x: real, n: nat): real {
    if n == 0 then 1.0 else x * Pow(x, n - 1)
  }

  /** `n` steps of "add `m`, then multiply by `f`" from `b`, for any factor. */
  function Grow(f: real, m: real, b: real, n: nat): real {
    if n == 0 then b else (Grow(f, m, b, n - 1) + m) * f
  }

  lemma {:induction false} AfterMonthsIsGrow(p: Inputs, b: real, n: nat)
    ensures AfterMonths(p, b, n) == Grow(MonthlyFactor(p), p.monthly, b, n)
  {
    if n > 0 {
      AfterMonthsIsGrow(p, b, n - 1);
    }
  }

  /**
   * The loop agrees with the textbook future value of a principal plus an annuity
   * due: with `q` the monthly rate and `F = 1 + q`,
   * `balance * q == (b * q + monthly * F) * F^n - monthly * F`.
   */
  lemma AnnuityDueClosedForm(p: Inputs, b: real, n: nat)
    ensures var f := MonthlyFactor(p);
            AfterMonths(p, b, n) * (f - 1.0) == (b * (f - 1.0) + p.monthly * f) * Pow(f, n) - p.monthly * f
  {
    AfterMonthsIsGrow(p, b, n);
    GrowClosedForm(MonthlyFactor(p), p.monthly, b, n);
  }

  lemma GrowClosedForm(f: real, m: real, b: real, n: nat)
    ensures Grow(f, m, b, n) * (f - 1.0) == (b * (f - 1.0) + m * f) * Pow(f, n) - m * f
  {
    var c := b * (f - 1.0) + m * f;
    GrowClosedFormFor(f, m, b, c, n);
  }

  lemma {:induction false} GrowClosedFormFor(f: real, m: real, b: real, c: real, n: nat)
    requires c == b * (f - 1.0) + m * f
    ensures Grow(f, m, b, n) * (f - 1.0) == c * Pow(f, n) - m * f
  {
    if n == 0 {
      assert Grow(f, m, b, n) == b && Pow(f, n) == 1.0;
      assert c * 1.0 - m * f == b * (f - 1.0);
    } else {
      var prev, next := Grow(f, m, b, n - 1), Grow(f, m, b, n);
      var power, nextPower := Pow(f, n - 1), Pow(f, n);
      assert next == (prev + m) * f;
      assert nextPower == f * power;
      GrowClosedFormFor(f, m, b, c, n - 1);
      AnnuityStep(prev, next, m, f, c, power, nextPower);
    }
  }

  /** One month of the closed form: if it holds before a monthly step, it holds after it. */
  lemma AnnuityStep(prev: real, next: real, m: real, f: real, c: real, power: real, nextPower: real)
    requires prev * (f - 1.0) == c * power - m * f
    requires next == (prev + m) * f && nextPower == f * power
    ensures next * (f - 1.0) == c * nextPower - m * f
  {
    calc {
      next * (f - 1.0);
      (prev + m) * f * (f - 1.0);
      (prev * (f - 1.0) + m * (f - 1.0)) * f;
      (c * power - m * f + m * f - m) * f;
      (c * power - m) * f;
      c * (f * power) - m * f;
    }
  }

  /** Scenario: 10,000 with no contributions at 0% for five years stays 10,000. */
  lemma FlatPrincipalExample()
    ensures Project(Inputs(10000.0, 0.0, 0.0, 5)).futureValue == 10000.0
    ensures Project(Inputs(10000.0, 0.0, 0.0, 5)).interestEarned == 0.0
  {
    ZeroRateProjection(Inputs(10000.0, 0.0, 0.0, 5));
  }

  /** Scenario: 1,000 a month at 0% for one year comes to 12,000, all of it paid in. */
  lemma OneYearOfContributionsExample()
    ensures Project(Inputs(0.0, 1000.0, 0.0, 1)).futureValue == 12000.0
    ensures Project(Inputs(0.0, 1000.0, 0.0, 1)).totalInvested == 12000.0
  {
    ZeroRateProjection(Inputs(0.0, 1000.0, 0.0, 1));
  }
}
