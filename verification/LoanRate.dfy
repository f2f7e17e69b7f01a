/** Newton's iteration for the monthly rate, in exact arithmetic: when it finds the rate, and when it
    ends below zero instead. */
module LoanRate {
  import opened Helpers
  import opened Loan

  /** fman = 1 / (1 + i1) */
  function Factor(x: real): real
    requires x > -1.0
  {
    1.0 / (1.0 + x)
  }

  /** fi: zero at the rate for which `ffact` is the present value of `n` payments of 1. */
  function F(ffact: real, n: nat, x: real): real
    requires x > -1.0
  {
    ffact * x + Pow(Factor(x), n) - 1.0
  }

  /** n * fmann * fman */
  function Steepness(n: nat, x: real): real
    requires x > -1.0
  {
    n as real * (Pow(Factor(x), n) * Factor(x))
  }

  /** fprimi */
  function Slope(ffact: real, n: nat, x: real): real
    requires x > -1.0
  {
    ffact - Steepness(n, x)
  }

  // ------------------------------------------------------------------ convexity

  lemma BernoulliStep(t: real, m: real, p: real)
    requires t > 0.0 && m >= 0.0 && p >= 1.0 + m * (t - 1.0)
    ensures t * p >= 1.0 + (m + 1.0) * (t - 1.0)
    ensures m > 0.0 && t != 1.0 ==> t * p > 1.0 + (m + 1.0) * (t - 1.0)
  {
    var d := t - 1.0;
    MulNonNegative(t, p - (1.0 + m * d));
    assert t * p >= t * (1.0 + m * d);
    assert t * (1.0 + m * d) == 1.0 + (m + 1.0) * d + (m * d) * d;
    if d > 0.0 && m > 0.0 {
      MulPositive(m, d);
      MulPositive(m * d, d);
    } else if d < 0.0 && m > 0.0 {
      MulPositive(m, -d);
      MulPositive(m * -d, -d);
      assert (m * -d) * -d == (m * d) * d;
    }
  }

  /** Bernoulli's inequality, strict from the second power on. */
  lemma {:induction false} Bernoulli(t: real, m: nat)
    requires t > 0.0
    ensures Pow(t, m) >= 1.0 + m as real * (t - 1.0)
    ensures m >= 2 && t != 1.0 ==> Pow(t, m) > 1.0 + m as real * (t - 1.0)
  {
    if m > 0 {
      Bernoulli(t, m - 1);
      BernoulliStep(t, (m - 1) as real, Pow(t, m - 1));
    }
  }

  /** The ratio of two factors. */
  lemma FactorRatio(x: real, y: real) returns (t: real, w: real)
    requires x > -1.0 && y > -1.0
    ensures Factor(x) > 0.0 && t > 0.0 && (t == 1.0 <==> x == y)
    ensures Factor(y) == Factor(x) * t && w == Factor(x) * (y - x) && t * (1.0 + w) == 1.0
  {
    w := Factor(x) * (y - x);
    t := (1.0 + x) / (1.0 + y);
    var a := Factor(x);
    assert a * (1.0 + x) == 1.0;
    assert t * (1.0 + y) == 1.0 + x;
    assert (a * t) * (1.0 + y) == a * (t * (1.0 + y)) == 1.0;
    FactorPositive(a, 1.0 + x);
    FactorPositive(t, 1.0 + y);
    assert (t - 1.0) * (1.0 + y) == x - y;
    if x == y {
      FactorZero(t - 1.0, 1.0 + y);
    }
    assert Factor(y) * (1.0 + y) == 1.0;
    assert (a * t - Factor(y)) * (1.0 + y) == 0.0;
    FactorZero(a * t - Factor(y), 1.0 + y);
    assert 1.0 + w == a * (1.0 + y);
    assert t * (a * (1.0 + y)) == (a * t) * (1.0 + y);
  }

  /** From Bernoulli for n + 1, divided by t: q is Pow(t, n) and w is 1 / t. */
  lemma DivideByT(t: real, q: real, w: real, n: real)
    requires t > 0.0 && t * w == 1.0 && t * q > 1.0 + (n + 1.0) * (t - 1.0)
    ensures q > n + 1.0 - n * w
  {
    assert t * (q - (n + 1.0 - n * w)) == t * q - (n + 1.0) * t + n * (t * w);
    FactorPositive(q - (n + 1.0 - n * w), t);
  }

  lemma TimesAbove(p: real, e: real)
    requires p > 0.0 && e > 1.0
    ensures Times(p, e) > p
  {
    MulPositive(p, e - 1.0);
  }

  lemma TimesSum(p: real, q: real, m: real)
    ensures Times(p, q + m) == Times(p, q) + Times(p, m)
  {
  }

  lemma TimesRegroup(n: real, p: real, a: real, d: real)
    ensures Times(p, n * (a * d)) == Times(n * (p * a), d)
  {
  }

  /** The same multiplied by p, where w is a * d. */
  lemma ScaleBy(p: real, q: real, n: real, a: real, d: real, w: real)
    requires p > 0.0 && w == a * d && q > n + 1.0 - n * (1.0 + w)
    ensures Times(p, q) > p - Times(n * (p * a), d)
  {
    var m := n * w;
    assert n * (1.0 + w) == n + m;
    TimesRegroup(n, p, a, d);
    hide Times;
    TimesAbove(p, q + m);
    TimesSum(p, q, m);
  }

  lemma BernoulliNext(t: real, n: nat)
    requires n > 0 && t > 0.0 && t != 1.0
    ensures t * Pow(t, n) > 1.0 + (n as real + 1.0) * (t - 1.0)
  {
    Bernoulli(t, n + 1);
    assert (n + 1) as real == n as real + 1.0;
    assert Pow(t, n + 1) == t * Pow(t, n);
    hide Pow;
  }

  /** The discounts for two rates, and a bound on their ratio. */
  lemma DiscountRatio(n: nat, x: real, y: real) returns (q: real, w: real)
    requires n > 0 && x > -1.0 && y > -1.0 && x != y
    ensures Pow(Factor(y), n) == Times(Pow(Factor(x), n), q) && Pow(Factor(x), n) > 0.0
    ensures w == Factor(x) * (y - x) && q > n as real + 1.0 - n as real * (1.0 + w)
  {
    var t: real;
    t, w := FactorRatio(x, y);
    q := Pow(t, n);
    hide Pow, Factor;
    PowPositive(Factor(x), n);
    PowProduct(Factor(x), t, Factor(y), n);
    BernoulliNext(t, n);
    DivideByT(t, q, 1.0 + w, n as real);
  }

  /** The discount is strictly convex: it lies above each of its tangents. */
  lemma DiscountTangent(n: nat, x: real, y: real)
    requires n > 0 && x > -1.0 && y > -1.0 && x != y
    ensures Pow(Factor(y), n) > Pow(Factor(x), n) - Times(Steepness(n, x), y - x)
  {
    var s := Steepness(n, x);
    assert s == n as real * (Pow(Factor(x), n) * Factor(x));
    hide *;
    var q, w := DiscountRatio(n, x, y);
    ScaleBy(Pow(Factor(x), n), q, n as real, Factor(x), y - x, w);
  }

  /** The tangent inequality for the function whose zero is sought. */
  lemma Tangent(ffact: real, n: nat, x: real, y: real)
    requires n > 0 && x > -1.0 && y > -1.0 && x != y
    ensures F(ffact, n, y) > F(ffact, n, x) + Times(Slope(ffact, n, x), y - x)
  {
    DiscountTangent(n, x, y);
    assert Times(Slope(ffact, n, x), y - x) == ffact * (y - x) - Times(Steepness(n, x), y - x);
  }

  // ------------------------------------------------------------------ one step

  /** The next iterate: where the tangent crosses zero. */
  function Next(ffact: real, n: nat, x: real): real
    requires x > -1.0 && Slope(ffact, n, x) != 0.0
  {
    x - Over(F(ffact, n, x), Slope(ffact, n, x))
  }

  lemma AtZero(ffact: real, n: nat)
    ensures F(ffact, n, 0.0) == 0.0 && Slope(ffact, n, 0.0) == ffact - n as real
  {
    PowOne(n);
  }

  /** Everywhere, the function lies above the tangent through the next iterate. */
  lemma AboveTangent(ffact: real, n: nat, x: real, y: real)
    requires n > 0 && x > -1.0 && y > -1.0 && Slope(ffact, n, x) != 0.0
    ensures F(ffact, n, y) >= Times(Slope(ffact, n, x), y - Next(ffact, n, x))
    ensures y != x ==> F(ffact, n, y) > Times(Slope(ffact, n, x), y - Next(ffact, n, x))
  {
    var f, s := F(ffact, n, x), Slope(ffact, n, x);
    OverUndone(f, s);
    if y != x {
      Tangent(ffact, n, x, y);
    }
    hide F, Slope, Over;
    assert Times(s, y - Next(ffact, n, x)) == Times(s, y - x) + Times(Over(f, s), s);
  }

  lemma TimesSign(a: real, b: real)
    ensures Times(a, b) > 0.0 && a > 0.0 ==> b > 0.0
    ensures Times(a, b) > 0.0 && a < 0.0 ==> b < 0.0
    ensures Times(a, b) < 0.0 && a > 0.0 ==> b < 0.0
    ensures Times(a, b) < 0.0 && a < 0.0 ==> b > 0.0
    ensures Times(a, b) <= 0.0 && a > 0.0 ==> b <= 0.0
    ensures Times(a, 0.0) == 0.0 && Times(a, b) == Times(b, a)
  {
  }

  /** The iterate is on the side of zero that the slope points to, its value is not negative, and no
      rate is passed by going down. */
  lemma NextIterate(ffact: real, n: nat, x: real)
    requires n > 0 && x > -1.0 && x != 0.0 && Slope(ffact, n, x) != 0.0
    ensures var x' := Next(ffact, n, x);
            && (x' > 0.0 <==> Slope(ffact, n, x) > 0.0) && x' != 0.0
            && (x' > -1.0 ==> F(ffact, n, x') >= 0.0)
  {
    var x', s := Next(ffact, n, x), Slope(ffact, n, x);
    AboveTangent(ffact, n, x, 0.0);
    AtZero(ffact, n);
    TimesSign(s, 0.0 - x');
    if x' > -1.0 {
      AboveTangent(ffact, n, x, x');
    }
  }

  /** A rate, where the function is zero, is never overtaken from above. */
  lemma RateBelow(ffact: real, n: nat, x: real, z: real)
    requires n > 0 && x > -1.0 && Slope(ffact, n, x) > 0.0 && z > -1.0 && F(ffact, n, z) == 0.0
    ensures z <= Next(ffact, n, x)
  {
    AboveTangent(ffact, n, x, z);
    TimesSign(Slope(ffact, n, x), z - Next(ffact, n, x));
  }

  /** On the right of zero, where the function is not negative, it rises. */
  lemma RisesRight(ffact: real, n: nat, x: real)
    requires n > 0 && x > 0.0 && F(ffact, n, x) >= 0.0
    ensures Slope(ffact, n, x) > 0.0
  {
    Tangent(ffact, n, x, 0.0);
    AtZero(ffact, n);
    var s := Slope(ffact, n, x);
    assert Times(s, 0.0 - x) == -Times(x, s);
    TimesSign(x, s);
  }

  /** On the left of zero it falls, when more is paid back than was lent. */
  lemma FallsLeft(ffact: real, n: nat, x: real)
    requires n > 0 && -1.0 < x < 0.0 && ffact < n as real
    ensures F(ffact, n, x) > 0.0 && Slope(ffact, n, x) < 0.0
  {
    AtZero(ffact, n);
    Tangent(ffact, n, 0.0, x);
    MulPositive(n as real - ffact, -x);
    assert Times(ffact - n as real, x - 0.0) == (n as real - ffact) * -x;
    Tangent(ffact, n, x, 0.0);
    var s := Slope(ffact, n, x);
    assert Times(s, 0.0 - x) == Times(-x, s);
    TimesSign(-x, s);
  }

  /** With a rising tangent the next iterate is right of zero again, on or above the curve's zero,
      and rises again; and it does not move to the right once the function is not negative. */
  lemma StaysRight(ffact: real, n: nat, x: real)
    requires n > 0 && x > 0.0 && Slope(ffact, n, x) > 0.0
    ensures var x' := Next(ffact, n, x);
            && x' > 0.0 && F(ffact, n, x') >= 0.0 && Slope(ffact, n, x') > 0.0
            && (F(ffact, n, x) >= 0.0 ==> x' <= x)
  {
    var x' := Next(ffact, n, x);
    NextIterate(ffact, n, x);
    RisesRight(ffact, n, x');
    if F(ffact, n, x) >= 0.0 {
      AboveSign(F(ffact, n, x), Slope(ffact, n, x));
    }
  }

  lemma AboveSign(f: real, s: real)
    requires s != 0.0
    ensures f >= 0.0 && s > 0.0 ==> Over(f, s) >= 0.0
    ensures f > 0.0 && s < 0.0 ==> Over(f, s) < 0.0
  {
    OverUndone(f, s);
    TimesSign(s, Over(f, s));
    if f == 0.0 {
      FactorZero(Over(f, s), s);
    }
  }

  /** Left of zero the iterates stay left and only move towards zero. */
  lemma StaysLeft(ffact: real, n: nat, x: real)
    requires n > 0 && -1.0 < x < 0.0 && ffact < n as real
    ensures Slope(ffact, n, x) < 0.0 && x < Next(ffact, n, x) < 0.0
  {
    FallsLeft(ffact, n, x);
    NextIterate(ffact, n, x);
    AboveSign(F(ffact, n, x), Slope(ffact, n, x));
  }

  // ------------------------------------------------------------------ the iteration

  const START := 0.0125
  const DELTA := 0.0000001

  /** The first step can be taken and stays in the domain. */
  ghost predicate Startable(ffact: real, n: nat) {
    Slope(ffact, n, START) != 0.0 && Next(ffact, n, START) > -1.0
  }

  /** With a positive slope the first step always stays in the domain; with a negative one, where the
      function is not too far below zero for the slope. */
  lemma StartableIff(ffact: real, n: nat)
    requires n > 0
    ensures Startable(ffact, n) <==>
            || Slope(ffact, n, START) > 0.0
            || (Slope(ffact, n, START) < 0.0 && F(ffact, n, START) > Times(Slope(ffact, n, START), 1.0 + START))
  {
    var f, s := F(ffact, n, START), Slope(ffact, n, START);
    if s > 0.0 {
      NextIterate(ffact, n, START);
    } else if s < 0.0 {
      OverUndone(f, s);
      var q := Over(f, s);
      assert Next(ffact, n, START) == START - q;
      assert Times(s, 1.0 + START) == Times(s, q) + Times(s, 1.0 + START - q);
      TimesSign(s, q);
      hide *;
      if q >= 1.0 + START {
        NegativeTimes(s, 1.0 + START - q);
      } else {
        NegativeTimes(s, q - (1.0 + START));
        TimesNegated(s, 1.0 + START - q, q - (1.0 + START));
      }
    }
  }

  lemma NegativeTimes(s: real, d: real)
    requires s < 0.0 && d <= 0.0
    ensures Times(s, d) >= 0.0 && (d < 0.0 ==> Times(s, d) > 0.0)
  {
    MulNonNegative(-s, -d);
    if d < 0.0 {
      MulPositive(-s, -d);
    }
  }

  lemma TimesNegated(s: real, a: real, b: real)
    requires b == -a
    ensures Times(s, b) == -Times(s, a)
  {
  }

  /** A rate that comes out of one Newton step from `x` no longer than 1e-7. */
  ghost predicate Settled(ffact: real, n: nat, x: real, i1: real) {
    && x > -1.0 && Slope(ffact, n, x) != 0.0
    && i1 == Next(ffact, n, x) && -0.0000001 <= i1 - x <= 0.0000001
  }

  lemma StartSide(ffact: real, n: nat)
    requires n > 0 && Startable(ffact, n) && ffact < n as real
    ensures Slope(ffact, n, START) > 0.0 ==> Rising(ffact, n, Next(ffact, n, START))
    ensures Slope(ffact, n, START) < 0.0 ==> -1.0 < Next(ffact, n, START) < 0.0
  {
    if Slope(ffact, n, START) > 0.0 {
      StaysRight(ffact, n, START);
    } else {
      NextIterate(ffact, n, START);
    }
  }

  /** An iterate on the way down to the rate. */
  ghost predicate Rising(ffact: real, n: nat, x: real) {
    x > 0.0 && F(ffact, n, x) >= 0.0 && Slope(ffact, n, x) > 0.0
  }

  /** A further step goes down towards the rate, or up towards zero, never across. */
  lemma FurtherStep(ffact: real, n: nat, x: real)
    requires n > 0 && ffact < n as real && (Rising(ffact, n, x) || -1.0 < x < 0.0)
    ensures Slope(ffact, n, x) != 0.0
    ensures Rising(ffact, n, x) ==> Rising(ffact, n, Next(ffact, n, x)) && Next(ffact, n, x) <= x
    ensures x < 0.0 ==> x < Next(ffact, n, x) < 0.0
  {
    if x > 0.0 {
      StaysRight(ffact, n, x);
    } else {
      StaysLeft(ffact, n, x);
    }
  }

  function Abs(x: real): real {
    if x < 0.0 then -x else x
  }

  /** `i1` came out of a Newton step no longer than the tolerance. */
  ghost predicate Converged(ffact: real, n: nat, i1: real) {
    exists x :: Settled(ffact, n, x, i1)
  }

  /** No rate, where the function is zero, lies above `i1`. */
  ghost predicate NoRateAbove(ffact: real, n: nat, i1: real) {
    forall z :: z > -1.0 && F(ffact, n, z) == 0.0 ==> z <= i1
  }

  /** The function is zero at `i1` but for 1e-7 of `ffact`; and `i1` is as close to every rate as the slope
      there allows. */
  ghost predicate Accurate(ffact: real, n: nat, i1: real) {
    && i1 > -1.0 && 0.0 <= F(ffact, n, i1) <= Times(ffact, 0.0000001)
    && forall z :: z > -1.0 && F(ffact, n, z) == 0.0 ==> Times(Slope(ffact, n, z), i1 - z) <= Times(ffact, 0.0000001)
  }

  lemma DifferenceBound(a: real, b: real, c: real, e: real, d: real)
    requires 0.0 < a <= c && 0.0 < b <= c && -d <= e <= d
    ensures Times(a, e) - Times(b, e) <= Times(c, d)
  {
    if e >= 0.0 {
      MulNonNegative(b, e);
      MulNonNegative(c - a, e);
      MulNonNegative(c, d - e);
    } else {
      MulNonNegative(a, -e);
      MulNonNegative(c - b, -e);
      MulNonNegative(c, d + e);
    }
  }

  lemma SlopeBelow(ffact: real, n: nat, x: real)
    requires x > -1.0
    ensures Slope(ffact, n, x) <= ffact
  {
    assert Times(Factor(x), 1.0 + x) == 1.0;
    FactorPositive(Factor(x), 1.0 + x);
    PowPositive(Factor(x), n);
    MulNonNegative(Pow(Factor(x), n), Factor(x));
    MulNonNegative(n as real, Pow(Factor(x), n) * Factor(x));
  }

  /** After a step along a rising tangent the function is no further from zero than the step is long,
      times `ffact`. */
  lemma Residual(ffact: real, n: nat, x: real, i1: real, d: real)
    requires n > 0 && x > -1.0 && Slope(ffact, n, x) > 0.0 && i1 == Next(ffact, n, x) && -d <= i1 - x <= d
    requires i1 > -1.0 && Slope(ffact, n, i1) > 0.0
    ensures F(ffact, n, i1) <= Times(ffact, d)
  {
    SlopeBelow(ffact, n, x);
    SlopeBelow(ffact, n, i1);
    var f, s, t := F(ffact, n, x), Slope(ffact, n, x), Slope(ffact, n, i1);
    OverUndone(f, s);
    DifferenceBound(s, t, ffact, x - i1, d);
    assert Times(s, x - i1) == f;
    if i1 != x {
      Tangent(ffact, n, i1, x);
    }
    hide Slope, F;
    assert i1 == x ==> Times(t, x - i1) == 0.0;
  }

  lemma RisingAccurate(ffact: real, n: nat, x: real, i1: real)
    requires n > 0 && x > -1.0 && Slope(ffact, n, x) > 0.0 && Rising(ffact, n, i1)
    requires i1 == Next(ffact, n, x) && -0.0000001 <= i1 - x <= 0.0000001
    ensures Accurate(ffact, n, i1)
  {
    Residual(ffact, n, x, i1, 0.0000001);
    forall z | z > -1.0 && F(ffact, n, z) == 0.0
      ensures Times(Slope(ffact, n, z), i1 - z) <= Times(ffact, 0.0000001)
    {
      if z != i1 {
        Tangent(ffact, n, z, i1);
      } else {
        TimesSign(Slope(ffact, n, z), i1 - z);
        assert F(ffact, n, i1) == 0.0;
      }
      hide F, Slope;
    }
  }

  /** What the iteration keeps: `i1` came from `prev` by one step of length `xdelta`. */
  ghost predicate Stepped(ffact: real, n: nat, prev: real, i1: real, xdelta: real) {
    && prev > -1.0 && Slope(ffact, n, prev) != 0.0
    && i1 == Next(ffact, n, prev) && xdelta == Abs(i1 - prev)
    && (Slope(ffact, n, START) > 0.0 ==> Rising(ffact, n, i1) && Slope(ffact, n, prev) > 0.0)
    && (Slope(ffact, n, START) < 0.0 ==> -1.0 < i1 < 0.0)
  }

  lemma FirstStep(ffact: real, n: nat)
    requires n > 0 && Startable(ffact, n) && ffact < n as real
    ensures var x' := Next(ffact, n, START); Stepped(ffact, n, START, x', Abs(x' - START))
  {
    hide F, Slope, Next, Factor;
    StartSide(ffact, n);
  }

  /** A further step keeps it, and comes closer to zero. */
  lemma StepAgain(ffact: real, n: nat, prev: real, x: real, d: real)
    requires n > 0 && ffact < n as real && Startable(ffact, n) && Stepped(ffact, n, prev, x, d)
    ensures x > -1.0 && Slope(ffact, n, x) != 0.0 && Next(ffact, n, x) > -1.0
    ensures var x' := Next(ffact, n, x);
            Stepped(ffact, n, x, x', Abs(x' - x)) && Abs(x') == Abs(x) - Abs(x' - x)
  {
    hide F, Slope, Next, Factor;
    FurtherStep(ffact, n, x);
  }

  lemma SettledWell(ffact: real, n: nat, prev: real, i1: real, d: real)
    requires n > 0 && Stepped(ffact, n, prev, i1, d) && d <= DELTA
    ensures Converged(ffact, n, i1)
    ensures Slope(ffact, n, START) > 0.0 ==>
              Rising(ffact, n, i1) && NoRateAbove(ffact, n, i1) && Accurate(ffact, n, i1)
    ensures Slope(ffact, n, START) < 0.0 ==> i1 < 0.0
  {
    hide F, Slope, Next, Factor;
    assert Settled(ffact, n, prev, i1);
    if Slope(ffact, n, START) > 0.0 {
      RisingAccurate(ffact, n, prev, i1);
      forall z | z > -1.0 && F(ffact, n, z) == 0.0 ensures z <= i1 {
        RateBelow(ffact, n, prev, z);
      }
    }
  }

  /** The step as the loop computes it. */
  lemma StepIs(ffact: real, n: nat, x: real, fman: real, fmann: real)
    requires x > -1.0 && fman == Over(1.0, 1.0 + x) && fmann == Pow(fman, n)
    ensures ffact - Times(n as real, Times(fmann, fman)) == Slope(ffact, n, x)
    ensures Slope(ffact, n, x) != 0.0 ==>
              Next(ffact, n, x) == x - Over(Times(ffact, x) + fmann - 1.0, Slope(ffact, n, x))
  {
    hide Pow;
    assert Factor(x) == fman;
    hide Factor;
    assert Steepness(n, x) == Times(n as real, Times(fmann, fman));
    assert F(ffact, n, x) == Times(ffact, x) + fmann - 1.0;
    hide F, Steepness, Over, Times;
  }

  /** calculate_i, in exact arithmetic. It ends, and no step divides by zero or leads to -100% a month
      or below unless the first one does; on those loans there is no result here. On the others it
      finds a positive rate if and only if the slope at the starting value is positive; the result is
      then never below a rate, and as close as a step of 1e-7 makes it. Otherwise it ends below zero,
      although more is paid back than was lent. */
  method CalculateI(pv: real, n: nat, pmt: real) returns (i: Option<real>)
    requires pv != 0.0 && n > 0 && pmt != 0.0
    ensures i == None <==> Over(pv, pmt) < n as real && !Startable(Over(pv, pmt), n)
    ensures i.Some? ==>
              var ffact, i1 := Over(pv, pmt), Over(i.value, 1200.0);
              if ffact >= n as real then i.value == 0.0
              else
                && Converged(ffact, n, i1)
                && (Slope(ffact, n, START) > 0.0 ==>
                      Rising(ffact, n, i1) && NoRateAbove(ffact, n, i1) && Accurate(ffact, n, i1))
                && (Slope(ffact, n, START) < 0.0 ==> i1 < 0.0)
  {
    hide Pow, F, Slope, Next, Factor, Times, Over, Stepped, Startable, Converged, NoRateAbove, Rising,
         Accurate;
    var ffact := Over(pv, pmt);
    var i1, xdelta := 0.0, 0.0;
    if ffact < n as real {
      i1, xdelta := START, 0.9;
    }
    ghost var first, prev := true, 0.0;
    while xdelta > DELTA
      invariant ffact < n as real || (first && xdelta == 0.0 && i1 == 0.0)
      invariant ffact < n as real && first ==> i1 == START && xdelta == 0.9
      invariant !first ==> Startable(ffact, n) && Stepped(ffact, n, prev, i1, xdelta)
      decreases xdelta > DELTA, first, Abs(i1) / DELTA
    {
      if first {
        Domain(ffact, n);
      } else {
        StepAgain(ffact, n, prev, i1, xdelta);
      }
      var fman := Over(1.0, 1.0 + i1);
      var fmann := Pow(fman, n);
      StepIs(ffact, n, i1, fman, fmann);
      var fi := Times(ffact, i1) + fmann - 1.0;
      var fprimi := ffact - Times(n as real, Times(fmann, fman));
      if fprimi == 0.0 {
        return None;
      }
      var fdelta := Over(fi, fprimi);
      if i1 - fdelta <= -1.0 {
        return None;
      }
      if first {
        FirstStep(ffact, n);
      }
      prev, first := i1, false;
      i1 := i1 - fdelta;
      xdelta := if fdelta < 0.0 then -fdelta else fdelta;
    }
    i := Some(Times(i1, 1200.0));
    OverUndone(i1, 1200.0);
    if ffact < n as real {
      SettledWell(ffact, n, prev, i1, xdelta);
    } else {
      TimesSign(1200.0, 0.0);
    }
  }

  lemma Domain(ffact: real, n: nat)
    ensures Startable(ffact, n) <==> Slope(ffact, n, START) != 0.0 && Next(ffact, n, START) > -1.0
  {
  }

  // ------------------------------------------------------------------ what the rate is

  lemma FactorIsDiscount(n: nat, x: real)
    requires x > -1.0
    ensures Pow(Factor(x), n) == Discount(n, x)
  {
    PowProduct(Factor(x), 1.0 + x, 1.0, n);
    PowOne(n);
    PowPositive(1.0 + x, n);
    var a, p := Pow(Factor(x), n), Pow(1.0 + x, n);
    assert (a - 1.0 / p) * p == a * p - 1.0;
    FactorZero(a - 1.0 / p, p);
  }

  lemma RootScaled(pv: real, pmt: real, f: real, x: real, d: real)
    requires pmt != 0.0 && d != 0.0 && f == Over(pv, pmt)
    ensures f * x == d <==> Over(Times(pv, x), d) == pmt
  {
    OverUndone(pv, pmt);
    OverUndone(Times(pv, x), d);
    var e := Over(Times(pv, x), d);
    assert (f * x - d) * pmt == (e - pmt) * d;
    if f * x == d {
      FactorZero(e - pmt, d);
    } else if e == pmt {
      FactorZero(f * x - d, pmt);
    }
  }

  /** A rate other than zero is a fixed point of the iteration if and only if the payment computed
      for it is the payment given. */
  lemma FixedPointIsRate(pv: real, n: nat, pmt: real, i: real)
    requires pmt != 0.0 && Payable(n, i / 1200.0)
    requires Slope(Over(pv, pmt), n, i / 1200.0) != 0.0
    ensures Next(Over(pv, pmt), n, i / 1200.0) == i / 1200.0 <==> CalculatePmt(pv, n, i) == pmt
  {
    var f, x := Over(pv, pmt), i / 1200.0;
    FactorIsDiscount(n, x);
    PaidSign(n, x);
    RootScaled(pv, pmt, f, x, Paid(n, x));
    OverUndone(F(f, n, x), Slope(f, n, x));
    hide Slope, Pow, Factor, Discount;
  }

  lemma QuotientBound(f: real, s: real)
    requires -0.025 <= f < 0.0 && s <= -0.07
    ensures Over(f, s) <= 0.5
  {
    var q := Over(f, s);
    OverUndone(f, s);
    if q > 0.5 {
      MulPositive(q - 0.5, -s);
    }
  }

  /** 1000 lent for twelve payments of 100: the function changes sign between the starting value and
      a tenth, so the rate lies there, but the slope at the starting value is negative and the
      iteration ends below zero. */
  lemma RunsBelowZero()
    ensures Over(1000.0, 100.0) < 12.0 && Startable(Over(1000.0, 100.0), 12)
    ensures F(Over(1000.0, 100.0), 12, START) < 0.0 < F(Over(1000.0, 100.0), 12, 0.1)
    ensures Slope(Over(1000.0, 100.0), 12, START) < 0.0
  {
    var up, down := 81.0 / 80.0, 80.0 / 81.0;
    assert Over(1000.0, 100.0) == 10.0 && Factor(START) == down && down * up == 1.0;
    PowPositive(Factor(0.1), 12);
    var p, q := Pow(up, 12), Pow(down, 12);
    Bernoulli(up, 12);
    Bernoulli(down, 12);
    Bernoulli(down, 13);
    PowProduct(down, up, 1.0, 12);
    PowOne(12);
    assert Pow(down, 13) == down * q;
    hide Pow;
    assert q * p == 1.0 && p >= 1.15 && q >= 0.85;
    assert (0.875 - q) * p == 0.875 * p - 1.0;
    FactorPositive(0.875 - q, p);
    QuotientBound(F(10.0, 12, START), Slope(10.0, 12, START));
  }
}
