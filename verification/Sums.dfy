/** Sums of integers over a sequence. */
module Sums {

  ghost function Sum(xs: seq<int>): int {
    if xs == [] then 0 else xs[0] + Sum(xs[1..])
  }

  lemma {:induction false} SumSet(xs: seq<int>, i: nat, x: int)
    requires i < |xs|
    ensures Sum(xs[i := x]) == Sum(xs) - xs[i] + x
  {
    if i > 0 {
      SumSet(xs[1..], i - 1, x);
      assert xs[i := x][1..] == xs[1..][i - 1 := x];
    } else {
      assert xs[i := x][1..] == xs[1..];
    }
  }

  lemma {:induction false} SumAppend(xs: seq<int>, x: int)
    ensures Sum(xs + [x]) == Sum(xs) + x
  {
    if xs == [] {
      assert Sum([x]) == x + Sum([]);
    } else {
      SumAppend(xs[1..], x);
      assert (xs + [x])[1..] == xs[1..] + [x];
    }
  }

  /** Changing one term changes the sum by the difference. */
  lemma SumChange(xs: seq<int>, ys: seq<int>, i: nat)
    requires i < |xs| == |ys| && forall j :: 0 <= j < |xs| && j != i ==> ys[j] == xs[j]
    ensures Sum(ys) == Sum(xs) - xs[i] + ys[i]
  {
    SumSet(xs, i, ys[i]);
    assert ys == xs[i := ys[i]];
  }

  lemma {:induction false} SumNothing(xs: seq<int>)
    requires forall i :: 0 <= i < |xs| ==> xs[i] == 0
    ensures Sum(xs) == 0
  {
    if xs != [] {
      SumNothing(xs[1..]);
    }
  }

  lemma {:induction false} SumAtLeast(xs: seq<int>, i: nat)
    requires i < |xs| && forall j :: 0 <= j < |xs| ==> xs[j] >= 0
    ensures Sum(xs) >= xs[i]
  {
    if |xs| > 1 {
      SumAtLeast(xs[1..], if i > 0 then i - 1 else 0);
    }
  }

  /** Entry by entry, raising each term by at most `d` raises the sum by at most |xs| * d. */
  lemma {:induction false} SumRaise(xs: seq<int>, ys: seq<int>, d: int)
    requires |xs| == |ys| && forall i :: 0 <= i < |xs| ==> ys[i] <= xs[i] + d
    ensures Sum(ys) <= Sum(xs) + |xs| * d
  {
    if xs != [] {
      SumRaise(xs[1..], ys[1..], d);
      assert |xs| * d == d + (|xs| - 1) * d;
    }
  }

  lemma SumNonNegative(xs: seq<int>)
    requires forall i :: 0 <= i < |xs| ==> xs[i] >= 0
    ensures Sum(xs) >= 0
  {
    if xs != [] {
      SumAtLeast(xs, 0);
    }
  }
}
