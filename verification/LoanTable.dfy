/** The amortisation table: one row a month, with a total of the interest at the end of each year. */
module LoanTable {
  import opened Loan

  /** One printed row. */
  datatype Row = Row(balance: real, payment: real, principal: real, interest: real)

  ghost function InterestOf(rows: seq<Row>): real {
    if rows == [] then 0.0 else InterestOf(rows[..|rows| - 1]) + rows[|rows| - 1].interest
  }

  ghost function PrincipalOf(rows: seq<Row>): real {
    if rows == [] then 0.0 else PrincipalOf(rows[..|rows| - 1]) + rows[|rows| - 1].principal
  }

  ghost function SumOf(totals: seq<real>): real {
    if totals == [] then 0.0 else SumOf(totals[..|totals| - 1]) + totals[|totals| - 1]
  }

  /** The balance before row `k`. */
  ghost function Before(pv: real, rows: seq<Row>, k: nat): real
    requires k <= |rows|
  {
    if k == 0 then pv else rows[k - 1].balance
  }

  /** What every row satisfies: interest on the balance before it, a payment made of interest and
      principal, and a balance that the principal is taken from and that does not go below zero. */
  ghost predicate RowAdds(pv: real, rate: real, rows: seq<Row>, k: nat)
    requires k < |rows|
  {
    var row, before := rows[k], Before(pv, rows, k);
    && row.interest == before * rate
    && row.payment == row.principal + row.interest
    && row.balance == before - row.principal
    && 0.0 <= row.balance
  }

  ghost predicate TableAdds(pv: real, rate: real, rows: seq<Row>) {
    forall k :: 0 <= k < |rows| ==> RowAdds(pv, rate, rows, k)
  }

  /** No balance is higher than the one before. */
  ghost predicate Falling(pv: real, rows: seq<Row>) {
    forall k :: 0 <= k < |rows| ==> rows[k].balance <= Before(pv, rows, k)
  }

  lemma RowsAppend(rows: seq<Row>, row: Row)
    ensures InterestOf(rows + [row]) == InterestOf(rows) + row.interest
    ensures PrincipalOf(rows + [row]) == PrincipalOf(rows) + row.principal
  {
    assert (rows + [row])[..|rows|] == rows;
  }

  lemma TotalsAppend(totals: seq<real>, t: real)
    ensures SumOf(totals + [t]) == SumOf(totals) + t
  {
    assert (totals + [t])[..|totals|] == totals;
  }

  lemma TableAppend(pv: real, rate: real, rows: seq<Row>, row: Row)
    requires TableAdds(pv, rate, rows) && RowAdds(pv, rate, rows + [row], |rows|)
    ensures TableAdds(pv, rate, rows + [row])
  {
    var rows' := rows + [row];
    forall k | 0 <= k < |rows'| ensures RowAdds(pv, rate, rows', k) {
      if k < |rows| {
        assert RowAdds(pv, rate, rows, k);
      }
    }
  }

  lemma FallingAppend(pv: real, rows: seq<Row>, row: Row)
    ensures Falling(pv, rows + [row]) <==> Falling(pv, rows) && row.balance <= Before(pv, rows, |rows|)
  {
    var rows' := rows + [row];
    assert forall k :: 0 <= k < |rows| ==> rows'[k] == rows[k] && Before(pv, rows', k) == Before(pv, rows, k);
    assert Before(pv, rows', |rows|) == Before(pv, rows, |rows|) && rows'[|rows|] == row;
    if Falling(pv, rows') {
      assert forall k :: 0 <= k < |rows| ==> rows'[k].balance <= Before(pv, rows', k);
    }
  }

  /** The rows so far: adding up, on schedule, and together what has been paid off `pv0`. */
  ghost predicate Progress(pv0: real, pmt0: real, rate: real, rows: seq<Row>, pv: real, pmt: real) {
    && TableAdds(pv0, rate, rows)
    && pv == Before(pv0, rows, |rows|)
    && PrincipalOf(rows) + pv == pv0
    && (pv > 0.0 ==> pmt == pmt0 && pv == Balance(pv0, pmt0, rate, |rows|))
    && OnSchedule(pv0, pmt0, rate, rows)
  }

  /** The payment covers the interest of a month. */
  ghost predicate Covers(pv: real, rate: real, pmt: real) {
    pv * rate <= pmt
  }

  /** A payment that covers a month's interest covers the next month's too, except with rates below
      -100%: there it does so only if it is just the interest. */
  ghost predicate Steady(pv: real, pmt: real, rate: real) {
    1.0 + rate >= 0.0 || pv * rate == pmt
  }

  /** Whether balances fall: as long as the payments are steady; otherwise for the first row alone. */
  ghost predicate FallsSoFar(pv0: real, pmt0: real, rate: real, rows: seq<Row>, pv: real, pmt: real) {
    && (rows != [] ==> pv0 > 0.0)
    && if Steady(pv0, pmt0, rate) then
      && Falling(pv0, rows)
      && (pv > 0.0 ==> pmt == pmt0 && Covers(pv, rate, pmt) && Steady(pv, pmt, rate))
    else
      && (Falling(pv0, rows) <==> |rows| <= 1)
      && (rows == [] ==> pv == pv0 && pmt == pmt0)
      && (|rows| == 1 && pv > 0.0 ==> pmt == pmt0 && pv == pv0 + pv0 * rate - pmt0)
  }

  /** Every balance is that of the schedule, or zero where the schedule goes below; only the last
      can be zero. */
  ghost predicate OnSchedule(pv0: real, pmt0: real, rate: real, rows: seq<Row>) {
    forall k :: 0 <= k < |rows| ==>
      && rows[k].balance == NonNegative(Balance(pv0, pmt0, rate, k + 1))
      && (k < |rows| - 1 ==> rows[k].balance > 0.0)
  }

  function NonNegative(b: real): real {
    if b < 0.0 then 0.0 else b
  }

  lemma StartProgress(pv: real, pmt: real, rate: real)
    requires pv * rate <= pmt
    ensures Progress(pv, pmt, rate, [], pv, pmt) && FallsSoFar(pv, pmt, rate, [], pv, pmt)
    ensures SumOf([]) == InterestOf([]) == 0.0
  {
  }

  /** The payment still covers the interest after the balance has fallen by a principal, and is still
      just the interest if it was. */
  lemma InterestCovered(pv: real, rate: real, pmt: real, interest: real, next: real)
    requires Steady(pv, pmt, rate) && Covers(pv, rate, pmt)
    requires interest == pv * rate && next == pv + interest - pmt
    ensures interest <= pmt && Covers(next, rate, pmt) && Steady(next, pmt, rate)
  {
    var p := pmt - interest;
    if 1.0 + rate >= 0.0 {
      MulNonNegative(p, 1.0 + rate);
      assert pmt - (pv - p) * rate == p * (1.0 + rate);
    } else {
      assert next == pv;
    }
  }

  /** Where it is not, the second month's interest exceeds the payment. */
  lemma InterestExceeds(pv: real, rate: real, pmt: real, next: real)
    requires !Steady(pv, pmt, rate) && pv * rate <= pmt && next == pv + pv * rate - pmt
    ensures next * rate > pmt
  {
    var p := pmt - pv * rate;
    MulPositive(p, -(1.0 + rate));
    assert next == pv - p;
    assert pmt - (pv - p) * rate == p * (1.0 + rate);
    assert p * -(1.0 + rate) == -(p * (1.0 + rate));
  }

  lemma BalanceAfter(pv0: real, pmt0: real, rate: real, k: nat, interest: real)
    requires interest == Balance(pv0, pmt0, rate, k) * rate
    ensures Balance(pv0, pmt0, rate, k + 1) == Balance(pv0, pmt0, rate, k) + interest - pmt0
  {
  }

  /** What PayMonth does with `pv` and `pmt`, in terms of the interest. */
  ghost predicate MonthPaid(pv: real, pmt: real, row: Row, pmt': real) {
    && row.balance == pv - row.principal && row.payment == pmt' == row.principal + row.interest
    && if pv + row.interest < pmt then row.balance == 0.0
       else pmt' == pmt && row.balance == pv + row.interest - pmt >= 0.0
  }

  lemma MonthAdds(pv0: real, rate: real, rows: seq<Row>, pv: real, pmt: real, row: Row, pmt': real)
    requires pv == Before(pv0, rows, |rows|) && row.interest == pv * rate
    requires MonthPaid(pv, pmt, row, pmt')
    ensures RowAdds(pv0, rate, rows + [row], |rows|)
  {
    var rows' := rows + [row];
    assert Before(pv0, rows', |rows|) == pv;
  }

  lemma MonthFallsSteady(pv0: real, pmt0: real, rate: real, rows: seq<Row>, pv: real, pmt: real, row: Row, pmt': real)
    requires pv == Before(pv0, rows, |rows|) && pv > 0.0 && row.interest == pv * rate && Steady(pv0, pmt0, rate)
    requires MonthPaid(pv, pmt, row, pmt') && FallsSoFar(pv0, pmt0, rate, rows, pv, pmt)
    ensures FallsSoFar(pv0, pmt0, rate, rows + [row], row.balance, pmt')
  {
    hide Falling, Steady, Covers;
    FallingAppend(pv0, rows, row);
    InterestCovered(pv, rate, pmt, row.interest, pv + row.interest - pmt);
  }

  /** Without steady payments the first balance falls, the second rises. */
  lemma MonthFallsOnce(pv0: real, pmt0: real, rate: real, rows: seq<Row>, pv: real, pmt: real, row: Row, pmt': real)
    requires pv == Before(pv0, rows, |rows|) && pv > 0.0 && row.interest == pv * rate && !Steady(pv0, pmt0, rate)
    requires MonthPaid(pv, pmt, row, pmt') && FallsSoFar(pv0, pmt0, rate, rows, pv, pmt) && pv0 * rate <= pmt0
    ensures FallsSoFar(pv0, pmt0, rate, rows + [row], row.balance, pmt')
  {
    hide Falling, Steady, Covers;
    FallingAppend(pv0, rows, row);
    if |rows| == 1 {
      InterestExceeds(pv0, rate, pmt0, pv);
    }
  }

  lemma MonthFalls(pv0: real, pmt0: real, rate: real, rows: seq<Row>, pv: real, pmt: real, row: Row, pmt': real)
    requires pv == Before(pv0, rows, |rows|) && pv > 0.0 && row.interest == pv * rate
    requires MonthPaid(pv, pmt, row, pmt') && FallsSoFar(pv0, pmt0, rate, rows, pv, pmt) && pv0 * rate <= pmt0
    ensures FallsSoFar(pv0, pmt0, rate, rows + [row], row.balance, pmt')
  {
    hide *;
    if Steady(pv0, pmt0, rate) {
      MonthFallsSteady(pv0, pmt0, rate, rows, pv, pmt, row, pmt');
    } else {
      MonthFallsOnce(pv0, pmt0, rate, rows, pv, pmt, row, pmt');
    }
  }

  lemma MonthOnSchedule(pv0: real, pmt0: real, rate: real, rows: seq<Row>, row: Row)
    requires OnSchedule(pv0, pmt0, rate, rows) && Before(pv0, rows, |rows|) > 0.0
    requires row.balance == NonNegative(Balance(pv0, pmt0, rate, |rows| + 1))
    ensures OnSchedule(pv0, pmt0, rate, rows + [row])
  {
    hide Balance, NonNegative;
    var rows' := rows + [row];
    forall k | 0 <= k < |rows'|
      ensures rows'[k].balance == NonNegative(Balance(pv0, pmt0, rate, k + 1))
      ensures k < |rows'| - 1 ==> rows'[k].balance > 0.0
    {
      if k < |rows| {
        assert rows'[k] == rows[k];
      }
    }
  }

  lemma MonthProgress(pv0: real, pmt0: real, rate: real, rows: seq<Row>, pv: real, pmt: real, row: Row, pmt': real)
    requires Progress(pv0, pmt0, rate, rows, pv, pmt) && pv > 0.0
    requires row.interest == pv * rate && MonthPaid(pv, pmt, row, pmt')
    ensures Progress(pv0, pmt0, rate, rows + [row], row.balance, pmt')
  {
    BalanceAfter(pv0, pmt0, rate, |rows|, row.interest);
    hide RowAdds, Balance, TableAdds, OnSchedule, PrincipalOf;
    assert Before(pv0, rows + [row], |rows| + 1) == row.balance;
    RowsAppend(rows, row);
    MonthAdds(pv0, rate, rows, pv, pmt, row, pmt');
    TableAppend(pv0, rate, rows, row);
    MonthOnSchedule(pv0, pmt0, rate, rows, row);
  }

  lemma ProgressMeans(pv0: real, pmt0: real, rate: real, rows: seq<Row>, pv: real, pmt: real)
    requires Progress(pv0, pmt0, rate, rows, pv, pmt)
    ensures TableAdds(pv0, rate, rows) && OnSchedule(pv0, pmt0, rate, rows)
    ensures pv == Before(pv0, rows, |rows|) && PrincipalOf(rows) + pv == pv0
  {
  }

  /** When the balances of the whole table fall, by the loan alone: the payments are steady, or there
      is one row at most. */
  ghost predicate Falls(pv: real, n: nat, rate: real, pmt: real) {
    Steady(pv, pmt, rate) || n <= 1 || pv <= 0.0 || pv + pv * rate <= pmt
  }

  lemma FirstBalance(pv: real, pmt: real, rate: real, rows: seq<Row>)
    requires OnSchedule(pv, pmt, rate, rows) && rows != []
    ensures rows[0].balance == NonNegative(pv + pv * rate - pmt)
    ensures |rows| > 1 ==> rows[0].balance > 0.0
  {
    BalanceStep(pv, pmt, rate, 1);
    assert rows[0].balance == NonNegative(Balance(pv, pmt, rate, 0 + 1));
  }

  lemma FallsWhen(pv0: real, pmt0: real, rate: real, rows: seq<Row>, pv: real, pmt: real, n: nat)
    requires FallsSoFar(pv0, pmt0, rate, rows, pv, pmt) && OnSchedule(pv0, pmt0, rate, rows)
    requires pv == Before(pv0, rows, |rows|) && |rows| <= n && (|rows| < n ==> pv <= 0.0)
    ensures Falling(pv0, rows) <==> Falls(pv0, n, rate, pmt0)
  {
    if rows != [] {
      FirstBalance(pv0, pmt0, rate, rows);
    }
    hide Falling, OnSchedule, Balance;
  }

  /** The closed form meets the loop: for the payment that calculate_pmt gives, a table that is on
      schedule and does not stop while something is owed has exactly n rows, every payment but none
      earlier leaves something owed, and the last leaves exactly nothing. */
  lemma FormulaTable(pv: real, n: nat, rate: real, rows: seq<Row>)
    requires Payable(n, rate) && pv > 0.0 && OnSchedule(pv, Payment(pv, n, rate), rate, rows)
    requires |rows| <= n && (|rows| < n ==> Before(pv, rows, |rows|) <= 0.0)
    ensures |rows| == n && rows[n - 1].balance == 0.0
    ensures forall k :: 0 <= k < n ==>
              OnFormula(rows[k].balance, pv, Pow(1.0 + rate, n), Pow(1.0 + rate, k + 1))
  {
    hide OnFormula, Payment, Balance;
    forall k | 0 <= k < |rows|
      ensures rows[k].balance == Balance(pv, Payment(pv, n, rate), rate, k + 1)
      ensures k + 1 < n ==> rows[k].balance > 0.0
      ensures OnFormula(rows[k].balance, pv, Pow(1.0 + rate, n), Pow(1.0 + rate, k + 1))
    {
      ScheduleEnds(pv, n, rate, k + 1);
      ScheduleMeetsFormula(pv, n, rate, k + 1);
    }
    ScheduleEnds(pv, n, rate, n);
  }

  /** The payment of the formula is admitted: it covers the first month's interest. */
  lemma FormulaAdmitted(pv: real, n: nat, rate: real)
    requires Payable(n, rate) && pv > 0.0
    ensures pv * rate <= Payment(pv, n, rate)
  {
    ScheduleMeetsFormula(pv, n, rate, 1);
    ScheduleDecreases(pv, n, rate);
  }

  lemma ScheduleDecreases(pv: real, n: nat, rate: real)
    requires Payable(n, rate) && pv > 0.0
    ensures Balance(pv, Payment(pv, n, rate), rate, 1) < pv
  {
    ScheduleMeetsFormula(pv, n, rate, 1);
    var g := 1.0 + rate;
    var b, p := Balance(pv, Payment(pv, n, rate), rate, 1), Pow(g, n);
    PowMonotone(g, 0, n);
    PowMonotone(g, 0, 1);
    assert (pv - b) * (p - 1.0) == pv * (Pow(g, 1) - 1.0);
    if g > 1.0 {
      MulPositive(pv, Pow(g, 1) - 1.0);
      FactorPositive(pv - b, p - 1.0);
    } else {
      MulPositive(pv, 1.0 - Pow(g, 1));
      assert (pv - b) * (1.0 - p) == pv * (1.0 - Pow(g, 1));
      FactorPositive(pv - b, 1.0 - p);
    }
  }

  // ------------------------------------------------------------------ the yearly totals

  /** The interest of the rows that fall into year `y`, the first row being in month `month` of year 0. */
  ghost function YearInterest(rows: seq<Row>, month: nat, y: nat): real {
    if rows == [] then 0.0
    else
      var k := |rows| - 1;
      YearInterest(rows[..k], month, y) + if (k + month) / 12 == y then rows[k].interest else 0.0
  }

  lemma YearAppend(rows: seq<Row>, row: Row, month: nat, y: nat)
    ensures YearInterest(rows + [row], month, y) ==
            YearInterest(rows, month, y) + if (|rows| + month) / 12 == y then row.interest else 0.0
  {
    assert (rows + [row])[..|rows|] == rows;
  }

  lemma {:induction false} YearAhead(rows: seq<Row>, month: nat, y: nat)
    requires |rows| + month <= 12 * y
    ensures YearInterest(rows, month, y) == 0.0
  {
    if rows != [] {
      YearAhead(rows[..|rows| - 1], month, y);
    }
  }

  /** One total for each year that is over, and what has come up in the year that is not. */
  ghost predicate YearsSound(rows: seq<Row>, month: nat, totals: seq<real>, open: real) {
    && |totals| == (|rows| + month) / 12
    && (forall y: nat :: y < |totals| ==> totals[y] == YearInterest(rows, month, y))
    && open == YearInterest(rows, month, |totals|)
  }

  /** The totals printed: one for each calendar year that has a row, or a single one for no rows. */
  ghost predicate YearTotals(rows: seq<Row>, month: nat, totals: seq<real>) {
    && (if rows == [] then |totals| == 1 else |totals| == (|rows| - 1 + month) / 12 + 1)
    && forall y: nat :: y < |totals| ==> totals[y] == YearInterest(rows, month, y)
  }

  lemma YearsStart(month: nat)
    requires month < 12
    ensures YearsSound([], month, [], 0.0)
  {
  }

  /** A row in the middle of a year, or the last one of a year, whose total is then printed. */
  lemma YearsRow(rows: seq<Row>, month: nat, totals: seq<real>, open: real, row: Row)
    requires YearsSound(rows, month, totals, open)
    ensures (|rows| + month) % 12 != 11 ==> YearsSound(rows + [row], month, totals, open + row.interest)
    ensures (|rows| + month) % 12 == 11 ==> YearsSound(rows + [row], month, totals + [open + row.interest], 0.0)
  {
    var rows' := rows + [row];
    forall y: nat ensures YearInterest(rows', month, y) ==
                          YearInterest(rows, month, y) + if |totals| == y then row.interest else 0.0 {
      YearAppend(rows, row, month, y);
    }
    if (|rows| + month) % 12 == 11 {
      YearAhead(rows', month, |totals| + 1);
    }
    hide YearInterest;
  }

  lemma YearsEnd(rows: seq<Row>, month: nat, totals: seq<real>, open: real)
    requires YearsSound(rows, month, totals, open) && month < 12
    ensures if rows != [] && (|rows| + month) % 12 == 0 then YearTotals(rows, month, totals)
            else YearTotals(rows, month, totals + [open])
  {
    hide YearInterest;
  }

  class Amort {
    var pv: real
    var pmt: real
    const i: real
    const n: nat
    var interest: real
    var principal: real
    var yearTotalInterest: real

    constructor (pv: real, n: nat, i: real, pmt: real)
      ensures this.pv == pv && this.n == n && this.i == i && this.pmt == pmt && yearTotalInterest == 0.0
    {
      this.pv, this.n, this.i, this.pmt := pv, n, i, pmt;
      interest, principal, yearTotalInterest := 0.0, 0.0, 0.0;
    }

    /** print_totals: the year's interest is printed and starts again from zero. */
    method PrintTotals() returns (total: real)
      modifies this`yearTotalInterest
      ensures total == old(yearTotalInterest) && yearTotalInterest == 0.0
    {
      total := yearTotalInterest;
      yearTotalInterest := 0.0;
    }

    /** One month: interest, principal, and the new balance. The last payment is cut to what is owed. */
    method PayMonth() returns (row: Row)
      requires pv > 0.0
      modifies this`pv, this`pmt, this`interest, this`principal, this`yearTotalInterest
      ensures yearTotalInterest == old(yearTotalInterest) + row.interest && row.interest == old(pv) * (i / 1200.0)
      ensures row.balance == pv && MonthPaid(old(pv), old(pmt), row, pmt)
    {
      interest := pv * i / 1200.0;
      yearTotalInterest := yearTotalInterest + interest;
      if pv + interest < pmt {
        pmt := pv + interest;
        principal := pv;
      } else {
        principal := pmt - interest;
      }
      pv := pv - principal;
      row := Row(pv, pmt, principal, interest);
    }

    /** The table for a loan that was admitted: the first month's interest does not exceed the
        payment. `month` is the first month, 0 for January. Nothing is lost: each row adds up, the
        principal paid and the final balance make up the loan, and the yearly totals, each the
        interest of its calendar year, make up all the interest. Balances are never negative, and
        they fall exactly where the loan says so. The table ends before row n only when nothing is
        owed any more; while the payment is unchanged the balances are those of the schedule. */
    method Table(month: nat) returns (rows: seq<Row>, totals: seq<real>)
      requires month < 12 && yearTotalInterest == 0.0 && pv * (i / 1200.0) <= pmt
      modifies this
      ensures TableAdds(old(pv), i / 1200.0, rows)
      ensures Falling(old(pv), rows) <==> Falls(old(pv), n, i / 1200.0, old(pmt))
      ensures PrincipalOf(rows) + pv == old(pv) && SumOf(totals) == InterestOf(rows)
      ensures YearTotals(rows, month, totals)
      ensures |rows| <= n && (|rows| < n ==> pv <= 0.0) && pv == Before(old(pv), rows, |rows|)
      ensures OnSchedule(old(pv), old(pmt), i / 1200.0, rows)
    {
      hide TableAdds, PrincipalOf, InterestOf, SumOf, OnSchedule, Balance, YearsSound, YearTotals, MonthPaid, Progress,
           Falling, Falls, FallsSoFar;
      rows, totals := [], [];
      var rate := i / 1200.0;
      var m := 0;
      var x := 0;
      ghost var pv0, pmt0 := pv, pmt;
      StartProgress(pv0, pmt0, rate);
      YearsStart(month);
      while x < n
        invariant x == |rows| <= n && pv == Before(pv0, rows, |rows|)
        invariant Progress(pv0, pmt0, rate, rows, pv, pmt) && FallsSoFar(pv0, pmt0, rate, rows, pv, pmt)
        invariant SumOf(totals) + yearTotalInterest == InterestOf(rows)
        invariant YearsSound(rows, month, totals, yearTotalInterest)
        invariant m == 11 <==> x > 0 && (x + month) % 12 == 0
        invariant m == 11 ==> yearTotalInterest == 0.0
      {
        if pv <= 0.0 {
          break;
        }
        m := (x + month) % 12;
        ghost var before, payment, open := pv, pmt, yearTotalInterest;
        var row := PayMonth();
        RowsAppend(rows, row);
        MonthProgress(pv0, pmt0, rate, rows, before, payment, row, pmt);
        MonthFalls(pv0, pmt0, rate, rows, before, payment, row, pmt);
        YearsRow(rows, month, totals, open, row);
        rows := rows + [row];
        if m == 11 {
          var total := PrintTotals();
          TotalsAppend(totals, total);
          totals := totals + [total];
        }
        x := x + 1;
      }
      ProgressMeans(pv0, pmt0, rate, rows, pv, pmt);
      FallsWhen(pv0, pmt0, rate, rows, pv, pmt, n);
      YearsEnd(rows, month, totals, yearTotalInterest);
      if m != 11 {
        var total := PrintTotals();
        TotalsAppend(totals, total);
        totals := totals + [total];
      }
    }
  }

  /** 100 owed at -200% a month, with payments of -150, is admitted, and the balance rises. */
  method RisesExample() returns (rows: seq<Row>)
    ensures !Falling(100.0, rows)
  {
    var amort := new Amort(100.0, 2, -2400.0, -150.0);
    var totals;
    rows, totals := amort.Table(0);
  }
}
