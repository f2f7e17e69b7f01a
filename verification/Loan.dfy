/** The loan calculator in exact arithmetic: the annuity formula, the amortisation table, and
    Newton's iteration for the rate. */
module Loan {

  function Pow(x: real, n: nat): real {
    if n == 0 then 1.0 else x * Pow(x, n - 1)
  }

  lemma {:induction false} PowPositive(x: real, n: nat)
    requires x > 0.0
    ensures Pow(x, n) > 0.0
  {
    if n > 0 {
      PowPositive(x, n - 1);
    }
  }

  lemma MulPositive(a: real, b: real)
    requires a > 0.0 && b > 0.0
    ensures a * b > 0.0
  {
  }

  lemma MulNonNegative(a: real, b: real)
    requires a >= 0.0 && b >= 0.0
    ensures a * b >= 0.0
  {
    if a > 0.0 && b > 0.0 {
      MulPositive(a, b);
    }
  }

  lemma FactorPositive(b: real, d: real)
    requires b * d > 0.0 && d > 0.0
    ensures b > 0.0
  {
  }

  lemma FactorZero(b: real, d: real)
    requires b * d == 0.0 && d != 0.0
    ensures b == 0.0
  {
  }

  lemma {:induction false} PowProduct(x: real, y: real, z: real, n: nat)
    requires z == x * y
    ensures Pow(z, n) == Pow(x, n) * Pow(y, n)
  {
    if n > 0 {
      PowProduct(x, y, z, n - 1);
      assert z * (Pow(x, n - 1) * Pow(y, n - 1)) == (x * Pow(x, n - 1)) * (y * Pow(y, n - 1));
    }
  }

  lemma {:induction false} PowOne(n: nat)
    ensures Pow(1.0, n) == 1.0
  {
    if n > 0 {
      PowOne(n - 1);
    }
  }

  lemma PowStep(x: real, n: nat)
    requires x > 0.0 && x != 1.0
    ensures if x > 1.0 then Pow(x, n) < Pow(x, n + 1) else Pow(x, n) > Pow(x, n + 1)
  {
    PowPositive(x, n);
    var p := Pow(x, n);
    assert Pow(x, n + 1) == x * p;
    hide Pow;
    if x > 1.0 {
      MulPositive(x - 1.0, p);
    } else {
      MulPositive(1.0 - x, p);
    }
  }

  /** Powers of a base above 1 grow, powers of a positive base below 1 shrink. */
  lemma {:induction false} PowMonotone(x: real, k: nat, n: nat)
    requires x > 0.0 && x != 1.0 && k < n
    ensures if x > 1.0 then Pow(x, k) < Pow(x, n) else Pow(x, k) > Pow(x, n)
    decreases n
  {
    hide Pow;
    PowStep(x, n - 1);
    if k < n - 1 {
      PowMonotone(x, k, n - 1);
    }
  }

  function Over(a: real, b: real): real
    requires b != 0.0
  {
    a / b
  }

  /** A product under a name of its own. */
  function Times(a: real, b: real): real {
    a * b
  }

  lemma OverUndone(a: real, b: real)
    requires b != 0.0
    ensures Times(Over(a, b), b) == a && Over(Times(a, b), b) == a
  {
  }

  // ------------------------------------------------------------------ the annuity formula

  /** A monthly rate and a number of payments the formulas are made for. */
  predicate Payable(n: nat, rate: real) {
    n > 0 && rate != 0.0 && 1.0 + rate > 0.0
  }

  /** pow(1 + rate, -n) */
  function Discount(n: nat, rate: real): real
    requires 1.0 + rate > 0.0
  {
    PowPositive(1.0 + rate, n);
    1.0 / Pow(1.0 + rate, n)
  }

  /** 1 - pow(1 + rate, -n) */
  function Paid(n: nat, rate: real): real
    requires 1.0 + rate > 0.0
  {
    1.0 - Discount(n, rate)
  }

  lemma PaidSign(n: nat, rate: real)
    requires Payable(n, rate)
    ensures Paid(n, rate) != 0.0 && (rate > 0.0 <==> Paid(n, rate) > 0.0)
    ensures Paid(n, rate) * Pow(1.0 + rate, n) == Pow(1.0 + rate, n) - 1.0
  {
    PowPositive(1.0 + rate, n);
    PowMonotone(1.0 + rate, 0, n);
    var p := Pow(1.0 + rate, n);
    assert p * (1.0 / p) == 1.0;
    assert p > 1.0 ==> 1.0 / p < 1.0;
    assert p < 1.0 ==> 1.0 / p > 1.0;
    assert Paid(n, rate) * p == p - p * (1.0 / p);
  }

  /** The payment for a monthly rate. */
  function Payment(pv: real, n: nat, rate: real): real
    requires Payable(n, rate)
  {
    PaidSign(n, rate);
    Over(Times(pv, rate), Paid(n, rate))
  }

  /** The present value for a monthly rate. */
  function PresentValue(n: nat, rate: real, pmt: real): real
    requires Payable(n, rate)
  {
    Over(Times(pmt, Paid(n, rate)), rate)
  }

  /** calculate_pmt and calculate_pv take the annual rate in percent. */
  function CalculatePmt(pv: real, n: nat, i: real): real
    requires Payable(n, i / 1200.0)
  {
    Payment(pv, n, i / 1200.0)
  }

  function CalculatePv(n: nat, i: real, pmt: real): real
    requires Payable(n, i / 1200.0)
  {
    PresentValue(n, i / 1200.0, pmt)
  }

  lemma MonthlyInverse(n: nat, rate: real, pv: real, pmt: real)
    requires Payable(n, rate)
    ensures PresentValue(n, rate, Payment(pv, n, rate)) == pv
    ensures Payment(PresentValue(n, rate, pmt), n, rate) == pmt
  {
    PaidSign(n, rate);
    hide Over, Times;
    OverUndone(Times(pv, rate), Paid(n, rate));
    OverUndone(pv, rate);
    OverUndone(Times(pmt, Paid(n, rate)), rate);
    OverUndone(pmt, Paid(n, rate));
  }

  /** The two formulas undo each other. */
  lemma PvPmtInverse(n: nat, i: real, pv: real, pmt: real)
    requires Payable(n, i / 1200.0)
    ensures CalculatePv(n, i, CalculatePmt(pv, n, i)) == pv
    ensures CalculatePmt(CalculatePv(n, i, pmt), n, i) == pmt
  {
    hide Payment, PresentValue, Payable;
    MonthlyInverse(n, i / 1200.0, pv, pmt);
  }

  // ------------------------------------------------------------------ the schedule

  /** The balance after `k` payments of `pmt` at monthly rate `rate`. */
  function Balance(pv: real, pmt: real, rate: real, k: nat): real {
    if k == 0 then pv
    else var b := Balance(pv, pmt, rate, k - 1); b + b * rate - pmt
  }

  lemma BalanceStep(pv: real, pmt: real, rate: real, k: nat)
    requires k > 0
    ensures Balance(pv, pmt, rate, k) ==
            Balance(pv, pmt, rate, k - 1) + Balance(pv, pmt, rate, k - 1) * rate - pmt
  {
  }

  /** The annuity formula for a balance `b`, where `p` and `q` are the powers for the whole term and
      for the payments made so far. */
  predicate OnFormula(b: real, pv: real, p: real, q: real) {
    b * (p - 1.0) == pv * (p - q)
  }

  predicate FormulaPmt(pmt: real, pv: real, rate: real, p: real) {
    pmt * (p - 1.0) == pv * rate * p
  }

  lemma PaymentStep(b: real, b': real, pv: real, pmt: real, rate: real, p: real, q: real, q': real)
    requires OnFormula(b, pv, p, q) && FormulaPmt(pmt, pv, rate, p)
    requires b' == b + b * rate - pmt && q' == (1.0 + rate) * q
    ensures OnFormula(b', pv, p, q')
  {
    calc {
      b' * (p - 1.0);
    ==
      (b * (p - 1.0)) * (1.0 + rate) - pmt * (p - 1.0);
    ==
      (pv * (p - q)) * (1.0 + rate) - pv * rate * p;
    ==
      pv * (p - q');
    }
  }

  lemma PmtOnFormula(pv: real, n: nat, rate: real)
    requires Payable(n, rate)
    ensures FormulaPmt(Payment(pv, n, rate), pv, rate, Pow(1.0 + rate, n))
  {
    PaidSign(n, rate);
    var p, d := Pow(1.0 + rate, n), Paid(n, rate);
    var pmt := Payment(pv, n, rate);
    OverUndone(Times(pv, rate), d);
    hide Over, Discount, Paid, Pow;
    assert pmt * d == pv * rate;
    assert (pmt * d) * p == pmt * (d * p);
  }

  /** With the payment of the formula, the balance after any number of payments is the one the
      annuity formula gives. */
  lemma {:induction false} ScheduleMeetsFormula(pv: real, n: nat, rate: real, k: nat)
    requires Payable(n, rate)
    ensures var g := 1.0 + rate;
            OnFormula(Balance(pv, Payment(pv, n, rate), rate, k), pv, Pow(g, n), Pow(g, k))
  {
    var g, pmt := 1.0 + rate, Payment(pv, n, rate);
    hide Payment, FormulaPmt;
    if k == 0 {
      assert Pow(g, 0) == 1.0;
    } else {
      BalanceStep(pv, pmt, rate, k);
      PowNext(g, k);
      hide *;
      ScheduleMeetsFormula(pv, n, rate, k - 1);
      PmtOnFormula(pv, n, rate);
      PaymentStep(Balance(pv, pmt, rate, k - 1), Balance(pv, pmt, rate, k), pv, pmt, rate,
                  Pow(g, n), Pow(g, k - 1), Pow(g, k));
    }
  }

  lemma PowNext(x: real, n: nat)
    requires n > 0
    ensures Pow(x, n) == x * Pow(x, n - 1)
  {
  }

  lemma FormulaSign(b: real, pv: real, p: real, q: real)
    requires OnFormula(b, pv, p, q) && pv > 0.0
    ensures (p > 1.0 && p > q) || (p < 1.0 && p < q) ==> b > 0.0
    ensures p != 1.0 && p == q ==> b == 0.0
  {
    if p > 1.0 && p > q {
      MulPositive(pv, p - q);
      FactorPositive(b, p - 1.0);
    } else if p < 1.0 && p < q {
      MulPositive(pv, q - p);
      assert b * (1.0 - p) == pv * (q - p);
      FactorPositive(b, 1.0 - p);
    } else if p != 1.0 && p == q {
      FactorZero(b, p - 1.0);
    }
  }

  /** The balance stays positive until the last payment, and is then exactly zero. */
  lemma ScheduleEnds(pv: real, n: nat, rate: real, k: nat)
    requires Payable(n, rate) && k <= n && pv > 0.0
    ensures var b := Balance(pv, Payment(pv, n, rate), rate, k);
            if k < n then b > 0.0 else b == 0.0
  {
    hide OnFormula, Payment;
    ScheduleMeetsFormula(pv, n, rate, k);
    var g := 1.0 + rate;
    PowMonotone(g, 0, n);
    if k < n {
      PowMonotone(g, k, n);
    }
    FormulaSign(Balance(pv, Payment(pv, n, rate), rate, k), pv, Pow(g, n), Pow(g, k));
  }
}
