/** The comma-grouping printer of the loan calculator and the filter that takes the commas out again. */
module Currency {
  import opened Helpers

  /** What printf makes of an amount with two decimals. */
  datatype Amount = Amount(negative: bool, digits: string, cents: string)

  predicate IsDigit(c: char) {
    '0' <= c <= '9'
  }

  predicate AllDigits(s: string) {
    forall i :: 0 <= i < |s| ==> IsDigit(s[i])
  }

  /** A float has at most 39 digits before the point. */
  predicate Printable(a: Amount) {
    1 <= |a.digits| <= 39 && AllDigits(a.digits) && |a.cents| == 2 && AllDigits(a.cents)
  }

  function Sign(a: Amount): string {
    if a.negative then "-" else ""
  }

  function Plain(a: Amount): string {
    Sign(a) + a.digits + "." + a.cents
  }

  function Spaces(n: nat): string {
    seq(n, i => ' ')
  }

  /** sprintf with "%-18.2f": padded on the right to eighteen columns. */
  function Printed(a: Amount): string {
    var s := Plain(a);
    s + Spaces(if |s| < 18 then 18 - |s| else 0)
  }

  // ------------------------------------------------------------------ the grouping

  /** The digits with a comma before every full group of three, counted from the right. */
  function GroupDigits(d: string): string {
    if |d| <= 3 then d else GroupDigits(d[..|d| - 3]) + "," + d[|d| - 3..]
  }

  function Formatted(a: Amount): string {
    Sign(a) + GroupDigits(a.digits) + "." + a.cents
  }

  lemma GroupOnce(d: string)
    requires |d| > 3
    ensures GroupDigits(d) == GroupDigits(d[..|d| - 3]) + ("," + d[|d| - 3..])
  {
    var g, t := GroupDigits(d[..|d| - 3]), d[|d| - 3..];
    assert GroupDigits(d) == g + "," + t;
    hide *;
    Assoc(g, ",", t);
  }

  /** Commas exactly in every fourth place from the right, and none in front. */
  predicate CommasRight(g: string) {
    && (forall k :: 0 <= k < |g| ==> (g[|g| - 1 - k] == ',' <==> k % 4 == 3))
    && (g != "" ==> g[0] != ',')
  }

  lemma FewDigits(d: string)
    requires AllDigits(d) && |d| <= 3
    ensures CommasRight(d)
  {
  }

  /** A comma and three digits more on the right. */
  lemma LastGroup(g: string, t: string)
    requires CommasRight(g) && g != "" && |t| == 3 && AllDigits(t)
    ensures CommasRight(g + ("," + t))
  {
    var all := g + ("," + t);
    forall k | 0 <= k < |all| ensures all[|all| - 1 - k] == ',' <==> k % 4 == 3 {
      if k >= 4 {
        assert all[|all| - 1 - k] == g[|g| - 1 - (k - 4)];
        assert (k - 4) % 4 == k % 4;
      } else {
        assert all[|all| - 1 - k] == ("," + t)[3 - k];
      }
    }
    assert all[0] == g[0];
  }

  lemma GroupLength(d: string)
    ensures |d| > 0 ==> |GroupDigits(d)| == |d| + (|d| - 1) / 3
    decreases |d|
  {
    if |d| > 3 {
      GroupLength(d[..|d| - 3]);
      GroupOnce(d);
    }
  }

  /** Counted from the right, exactly every fourth character is a comma, and there is none in front. */
  lemma {:induction false} CommasEveryThree(d: string)
    requires AllDigits(d)
    ensures CommasRight(GroupDigits(d)) && (d != "" ==> GroupDigits(d) != "")
    decreases |d|
  {
    if |d| <= 3 {
      FewDigits(d);
    } else {
      hide *;
      DigitsSplit(d, |d| - 3);
      CommasEveryThree(d[..|d| - 3]);
      GroupOnce(d);
      LastGroup(GroupDigits(d[..|d| - 3]), d[|d| - 3..]);
    }
  }

  /** A digit, and a comma where a group is full, in front of what has been grouped. */
  function Put(c: char, full: bool, g: string): string {
    if full then [c] + "," + g else [c] + g
  }

  lemma GroupFew(c: char, d: string)
    requires |d| <= 3
    ensures GroupDigits([c] + d) == Put(c, |d| == 3, GroupDigits(d))
  {
    var e := [c] + d;
    if |d| == 3 {
      assert e[..1] == [c] && e[1..] == d;
      assert GroupDigits(e) == GroupDigits([c]) + "," + d;
    }
  }

  lemma SplitThree(c: char, d: string)
    requires |d| > 3
    ensures var e := [c] + d; e[..|e| - 3] == [c] + d[..|d| - 3] && e[|e| - 3..] == d[|d| - 3..]
  {
  }

  lemma GroupFront(c: char, d: string)
    requires |d| > 3
    ensures GroupDigits([c] + d) == GroupDigits([c] + d[..|d| - 3]) + ("," + d[|d| - 3..])
  {
    hide GroupDigits;
    SplitThree(c, d);
    GroupOnce([c] + d);
  }

  lemma PutJoin(c: char, full: bool, g: string, t: string)
    ensures Put(c, full, g + t) == Put(c, full, g) + t
  {
    assert full ==> [c] + "," + (g + t) == [c] + "," + g + t;
    assert !full ==> [c] + (g + t) == [c] + g + t;
  }

  /** A group is full after every third digit. */
  predicate Full(n: nat) {
    n > 0 && n % 3 == 0
  }

  lemma FullAgain(n: nat)
    ensures n <= 3 ==> (Full(n) <==> n == 3)
    ensures n > 3 ==> Full(n) == Full(n - 3)
  {
  }

  /** Grouping one more digit on the left. */
  lemma {:induction false} GroupStep(c: char, d: string)
    ensures GroupDigits([c] + d) == Put(c, Full(|d|), GroupDigits(d))
    decreases |d|
  {
    hide *;
    FullAgain(|d|);
    if |d| <= 3 {
      GroupFew(c, d);
    } else {
      var front := d[..|d| - 3];
      GroupStep(c, front);
      GroupOnce(d);
      GroupFront(c, d);
      PutJoin(c, Full(|d|), GroupDigits(front), "," + d[|d| - 3..]);
    }
  }

  // ------------------------------------------------------------------ the right-to-left copy

  ghost function Point(a: Amount): nat {
    |Sign(a)| + |a.digits|
  }

  /** What the text from `p` on has become. */
  ghost function Out(a: Amount, p: nat): string
    requires p <= |Printed(a)|
  {
    var text, point, front := Printed(a), Point(a), |Sign(a)|;
    if p > point then text[p..]
    else if p >= front then GroupDigits(a.digits[p - front..]) + text[point..]
    else text[p..front] + GroupDigits(a.digits) + text[point..]
  }

  /** The digit counter when the text from `p` on has been copied. */
  ghost function CountAt(a: Amount, p: nat): nat {
    if p >= Point(a) then 0
    else ((if p < |Sign(a)| then |a.digits| else Point(a) - p) - 1) % 3 + 1
  }

  lemma TextAt(a: Amount, p: nat)
    requires Printable(a) && p < |Printed(a)|
    ensures var c := Printed(a)[p];
            && (c == '.' <==> p == Point(a))
            && (p <= Point(a) ==> (IsDigit(c) <==> |Sign(a)| <= p < Point(a)))
            && (|Sign(a)| <= p < Point(a) ==> c == a.digits[p - |Sign(a)|])
  {
  }

  lemma CountStep(a: Amount, p: nat)
    requires Printable(a) && |Sign(a)| <= p < Point(a)
    ensures CountAt(a, p) == if CountAt(a, p + 1) == 3 then 1 else CountAt(a, p + 1) + 1
    ensures CountAt(a, p + 1) == 3 <==> Full(Point(a) - p - 1)
  {
  }

  lemma OutBehind(a: Amount, p: nat)
    requires Printable(a) && Point(a) <= p < |Printed(a)|
    ensures Out(a, p) == [Printed(a)[p]] + Out(a, p + 1)
  {
    hide Printed, GroupDigits;
    assert a.digits[|a.digits|..] == [];
    EmptyGroup();
    assert Printed(a)[p..] == [Printed(a)[p]] + Printed(a)[p + 1..];
  }

  lemma EmptyGroup()
    ensures GroupDigits([]) == []
  {
  }

  lemma OutInDigits(a: Amount, p: nat)
    requires Printable(a) && |Sign(a)| <= p <= Point(a) < |Printed(a)|
    ensures Out(a, p) == GroupDigits(a.digits[p - |Sign(a)|..]) + Printed(a)[Point(a)..]
  {
    hide GroupDigits, Printed, Sign, Printable;
  }

  lemma SplitAt(s: string, k: nat)
    requires k < |s|
    ensures s[k..] == [s[k]] + s[k + 1..] && |s[k + 1..]| == |s| - k - 1
  {
  }

  lemma OutDigit(a: Amount, p: nat)
    requires Printable(a) && |Sign(a)| <= p < Point(a) < |Printed(a)|
    ensures Out(a, p) == Put(a.digits[p - |Sign(a)|], CountAt(a, p + 1) == 3, Out(a, p + 1))
  {
    assert Point(a) == |Sign(a)| + |a.digits|;
    hide *;
    var k := p - |Sign(a)|;
    SplitAt(a.digits, k);
    CountStep(a, p);
    GroupStep(a.digits[k], a.digits[k + 1..]);
    OutInDigits(a, p);
    OutInDigits(a, p + 1);
    PutJoin(a.digits[k], CountAt(a, p + 1) == 3, GroupDigits(a.digits[k + 1..]), Printed(a)[Point(a)..]);
  }

  lemma OutSign(a: Amount, p: nat)
    requires Printable(a) && p < |Sign(a)| && Point(a) < |Printed(a)|
    ensures Out(a, p) == [Printed(a)[p]] + Out(a, p + 1)
  {
    hide GroupDigits, Printed;
    assert a.digits[0..] == a.digits;
    assert Printed(a)[p..1] == [Printed(a)[p]];
  }

  /** One turn of the copy: what stands in front, and the counter. */
  lemma OutStep(a: Amount, p: nat)
    requires Printable(a) && p < |Printed(a)|
    ensures var c, grouped := Printed(a)[p], p < Point(a) && IsDigit(Printed(a)[p]);
            && Out(a, p) == Put(c, grouped && CountAt(a, p + 1) == 3, Out(a, p + 1))
            && CountAt(a, p) == if !grouped then CountAt(a, p + 1)
                                else if CountAt(a, p + 1) == 3 then 1 else CountAt(a, p + 1) + 1
  {
    TextAt(a, p);
    CopyStarts(a);
    hide GroupDigits, Printed, Out;
    if p >= Point(a) {
      OutBehind(a, p);
    } else if p >= |Sign(a)| {
      CountStep(a, p);
      OutDigit(a, p);
    } else {
      OutSign(a, p);
    }
  }

  lemma OutAll(a: Amount)
    requires Printable(a)
    ensures Out(a, 0) == Formatted(a) + Printed(a)[|Plain(a)|..]
  {
    var text, point := Printed(a), Point(a);
    assert text[point..] == "." + a.cents + text[|Plain(a)|..];
    assert a.digits[0..] == a.digits;
    assert a.negative ==> text[0..1] == "-";
  }

  lemma OutFits(a: Amount, p: nat)
    requires Printable(a) && p <= |Printed(a)|
    ensures |Out(a, p)| <= 70
  {
    var front := |Sign(a)|;
    GroupLength(a.digits);
    if front <= p <= Point(a) {
      GroupLength(a.digits[p - front..]);
    }
  }

  /** `s` written backwards. */
  ghost predicate Mirrors(s: string, out: string) {
    |s| == |out| && forall k :: 0 <= k < |s| ==> s[k] == out[|s| - 1 - k]
  }

  lemma MirrorsPut(s: string, out: string, c: char, full: bool)
    requires Mirrors(s, out)
    ensures Mirrors(if full then s + [','] + [c] else s + [c], Put(c, full, out))
  {
    assert full ==> Put(c, full, out) == [c] + ([','] + out);
  }

  lemma MirrorsLength(s: string, out: string)
    requires Mirrors(s, out)
    ensures |s| == |out|
  {
  }

  const BUFFER := 80

  /** The first loop of format_currency: copies the text into `fstr` from right to left, with commas. */
  method CopyBack(a: Amount, sstr: array<char>, fstr: array<char>) returns (dst: nat)
    requires Printable(a) && sstr != fstr && sstr.Length == fstr.Length == BUFFER
    requires |Plain(a)| <= |Printed(a)| < BUFFER && sstr[..|Printed(a)|] == Printed(a)
    modifies fstr
    ensures dst < BUFFER && dst == |Formatted(a)| + |Printed(a)[|Plain(a)|..]|
    ensures Mirrors(fstr[..dst], Formatted(a) + Printed(a)[|Plain(a)|..])
  {
    ghost var text := Printed(a);
    hide Printed, Formatted, Plain, Out, Point, CountAt, Sign, Printable, Put, Mirrors;
    dst := 0;
    var src: int := |Printed(a)| - 1;
    var left, count := false, 0;
    ghost var done := "";
    CopyStarts(a);
    while src >= 0
      invariant -1 <= src < |text| && sstr[..|text|] == text
      invariant left == (src < Point(a)) && count == CountAt(a, src + 1)
      invariant dst == |done| <= 70 && fstr[..dst] == done && Mirrors(done, Out(a, src + 1))
    {
      TextAt(a, src);
      OutStep(a, src);
      OutFits(a, src);
      var c := sstr[src];
      assert c == sstr[..|text|][src];
      ghost var full := left && IsDigit(c) && count == 3;
      MirrorsPut(done, Out(a, src + 1), c, full);
      MirrorsLength(if full then done + [','] + [c] else done + [c], Out(a, src));
      if left {
        if '0' <= c <= '9' {
          if count == 3 {
            fstr[dst] := ',';
            dst := dst + 1;
            done := done + [','];
            count := 1;
          } else {
            count := count + 1;
          }
        }
      } else if c == '.' {
        left := true;
      }
      fstr[dst] := c;
      dst := dst + 1;
      done := done + [c];
      src := src - 1;
    }
    OutAll(a);
    MirrorsLength(done, Out(a, 0));
  }

  lemma CopyStarts(a: Amount)
    requires Printable(a)
    ensures Point(a) < |Printed(a)| && CountAt(a, |Printed(a)|) == 0 && Out(a, |Printed(a)|) == ""
    ensures Mirrors("", Out(a, |Printed(a)|))
  {
  }

  /** The second loop: turns the copy round again. */
  method CopyForward(fstr: array<char>, n: nat, sstr: array<char>, ghost out: string)
    requires sstr != fstr && n <= fstr.Length == sstr.Length && Mirrors(fstr[..n], out)
    modifies sstr
    ensures sstr[..n] == out
  {
    var dst := 0;
    while dst < n
      invariant dst <= n && sstr[..dst] == out[..dst]
      invariant Mirrors(fstr[..n], out)
    {
      assert fstr[..n][n - 1 - dst] == out[dst];
      sstr[dst] := fstr[n - 1 - dst];
      assert sstr[..dst + 1] == sstr[..dst] + [sstr[dst]];
      dst := dst + 1;
    }
  }

  /** The third loop: ends the text in front of the trailing spaces. */
  method Strip(sstr: array<char>, n: nat, ghost s: string)
    returns (length: nat)
    requires 0 < |s| <= n < sstr.Length && sstr[..n] == s + Spaces(n - |s|) && s[|s| - 1] != ' '
    modifies sstr
    ensures length == |s| && sstr[..length] == s && sstr[length] == '\0'
  {
    assert forall i :: |s| <= i < n ==> sstr[..n][i] == ' ';
    assert sstr[..n][|s| - 1] == s[|s| - 1];
    assert sstr[..|s|] == sstr[..n][..|s|] == s;
    var dst := n - 1;
    while sstr[dst] == ' '
      invariant |s| - 1 <= dst < n
      decreases dst
    {
      dst := dst - 1;
    }
    length := dst + 1;
    sstr[length] := '\0';
  }

  /** The amount with commas. */
  method FormatCurrency(a: Amount) returns (s: string)
    requires Printable(a)
    ensures s == Formatted(a)
  {
    var text := Printed(a);
    PrintedFits(a);
    var sstr := new char[BUFFER](i => if 0 <= i < |text| then text[i] else '\0');
    var fstr := new char[BUFFER];
    assert sstr[..|text|] == text;
    EndsInDigit(a);
    hide *;
    var n := CopyBack(a, sstr, fstr);
    CopyForward(fstr, n, sstr, Formatted(a) + text[|Plain(a)|..]);
    var length := Strip(sstr, n, Formatted(a));
    s := sstr[..length];
  }

  lemma PrintedFits(a: Amount)
    requires Printable(a)
    ensures |Printed(a)| < BUFFER
  {
  }

  lemma EndsInDigit(a: Amount)
    requires Printable(a)
    ensures |Plain(a)| <= |Printed(a)|
    ensures |Formatted(a)| > 0 && Formatted(a)[|Formatted(a)| - 1] != ' '
    ensures Printed(a)[|Plain(a)|..] == Spaces(|Printed(a)| - |Plain(a)|)
  {
    assert Formatted(a)[|Formatted(a)| - 1] == a.cents[1];
  }

  // ------------------------------------------------------------------ the filter

  predicate Kept(c: char) {
    c == '-' || c == '.' || IsDigit(c)
  }

  function Numeric(s: string): string {
    if s == [] then [] else (if Kept(s[0]) then [s[0]] else []) + Numeric(s[1..])
  }

  /** The positions are those of the digits, points and minus signs, all of them and no others. */
  ghost predicate NumberPlaces(s: string, at: seq<nat>) {
    forall i: nat :: i in at <==> i < |s| && (s[i] == '-' || s[i] == '.' || '0' <= s[i] <= '9')
  }

  /** What is left of a text are its digits, points and minus signs, in their order. */
  lemma {:induction false} NumericPicks(s: string) returns (at: seq<nat>)
    ensures Picks(s, at, Numeric(s)) && NumberPlaces(s, at)
  {
    if s == "" {
      at := [];
    } else {
      var rest := NumericPicks(s[1..]);
      at := if Kept(s[0]) then [0] + OneOn(rest) else OneOn(rest);
      PicksOn(s, rest, Numeric(s[1..]), Kept(s[0]));
      NumericUnfold(s);
      hide Numeric, Picks, OneOn;
      forall i: nat ensures i in at <==> i < |s| && Kept(s[i]) {
        InPicksOn(rest, Kept(s[0]), i);
      }
    }
  }

  lemma NumericUnfold(s: string)
    requires s != ""
    ensures Numeric(s) == if Kept(s[0]) then [s[0]] + Numeric(s[1..]) else Numeric(s[1..])
  {
  }

  lemma NumericStep(done: string, s: string, i: nat)
    requires i < |s|
    ensures done + Numeric(s[i..]) ==
            (if Kept(s[i]) then done + [s[i]] else done) + Numeric(s[i + 1..])
  {
    assert s[i..][1..] == s[i + 1..];
    assert done + ([s[i]] + Numeric(s[i + 1..])) == done + [s[i]] + Numeric(s[i + 1..]);
  }

  /** numbers: into a buffer of its own, which it terminates. */
  method Numbers(d: array<char>, s: string) returns (len: nat)
    requires |Numeric(s)| < d.Length
    modifies d
    ensures len < d.Length && d[..len] == Numeric(s) && d[len] == '\0'
    ensures exists at :: Picks(s, at, d[..len]) && NumberPlaces(s, at)
    ensures forall j :: len < j < d.Length ==> d[j] == old(d[j])
  {
    ghost var at := NumericPicks(s);
    hide Numeric, Picks, NumberPlaces;
    var i := 0;
    len := 0;
    ghost var done := "";
    assert s[0..] == s;
    while i < |s|
      invariant i <= |s| && len == |done| < d.Length
      invariant done + Numeric(s[i..]) == Numeric(s)
      invariant d[..len] == done
      invariant forall j :: len <= j < d.Length ==> d[j] == old(d[j])
    {
      NumericStep(done, s, i);
      if s[i] == '-' || s[i] == '.' || '0' <= s[i] <= '9' {
        d[len] := s[i];
        len := len + 1;
        done := done + [s[i]];
      }
      i := i + 1;
    }
    assert s[|s|..] == "";
    NumericNone();
    d[len] := '\0';
  }

  lemma NumericNone()
    ensures Numeric("") == ""
  {
  }

  lemma NumericHead(c: char, s: string)
    ensures Numeric([c] + s) == (if Kept(c) then [c] else []) + Numeric(s)
  {
    assert ([c] + s)[1..] == s;
  }

  lemma {:induction false} NumericJoin(s: string, t: string)
    ensures Numeric(s + t) == Numeric(s) + Numeric(t)
  {
    if s == [] {
      assert s + t == t;
    } else {
      var c, rest := s[0], s[1..];
      hide Numeric, Kept;
      NumericJoin(rest, t);
      NumericHead(c, rest);
      NumericHead(c, rest + t);
      assert s == [c] + rest;
      Assoc([c], rest, t);
      Assoc(if Kept(c) then [c] else [], Numeric(rest), Numeric(t));
    }
  }

  lemma {:induction false} NumericKeeps(s: string)
    requires forall i :: 0 <= i < |s| ==> Kept(s[i])
    ensures Numeric(s) == s
  {
    if s != [] {
      NumericKeeps(s[1..]);
    }
  }

  lemma NumericComma(t: string)
    ensures Numeric("," + t) == Numeric(t)
  {
    NumericHead(',', t);
    assert [] + Numeric(t) == Numeric(t);
  }

  lemma DigitsKept(d: string)
    requires AllDigits(d)
    ensures Numeric(d) == d
  {
    NumericKeeps(d);
  }

  lemma DigitsSplit(d: string, n: nat)
    requires AllDigits(d) && n <= |d|
    ensures AllDigits(d[..n]) && AllDigits(d[n..]) && d == d[..n] + d[n..]
  {
  }

  lemma {:induction false} NumericUngroups(d: string)
    requires AllDigits(d)
    ensures Numeric(GroupDigits(d)) == d
    decreases |d|
  {
    if |d| <= 3 {
      DigitsKept(d);
    } else {
      hide *;
      var front, back := d[..|d| - 3], d[|d| - 3..];
      DigitsSplit(d, |d| - 3);
      GroupOnce(d);
      NumericUngroups(front);
      DigitsKept(back);
      NumericComma(back);
      NumericJoin(GroupDigits(front), "," + back);
    }
  }

  lemma FormattedParts(a: Amount)
    ensures Formatted(a) == Sign(a) + GroupDigits(a.digits) + ("." + a.cents)
    ensures Plain(a) == Sign(a) + a.digits + ("." + a.cents)
  {
    hide GroupDigits, Sign;
    Assoc(Sign(a) + GroupDigits(a.digits), ".", a.cents);
    Assoc(Sign(a) + a.digits, ".", a.cents);
  }

  /** The filter gives back the text that was formatted. */
  lemma NumbersUndoFormat(a: Amount)
    requires Printable(a)
    ensures Numeric(Formatted(a)) == Plain(a)
  {
    var tail := "." + a.cents;
    NumericKeeps(Sign(a));
    NumericKeeps(tail);
    hide *;
    assert AllDigits(a.digits) by {
      PrintableDigits(a);
    }
    NumericUngroups(a.digits);
    FormattedParts(a);
    NumericJoin(Sign(a), GroupDigits(a.digits));
    NumericJoin(Sign(a) + GroupDigits(a.digits), tail);
  }

  lemma PrintableDigits(a: Amount)
    requires Printable(a)
    ensures AllDigits(a.digits)
  {
  }

  /** Formatting loses nothing: different texts stay different. */
  lemma FormatInjective(a: Amount, b: Amount)
    requires Printable(a) && Printable(b) && Formatted(a) == Formatted(b)
    ensures Plain(a) == Plain(b)
  {
    NumbersUndoFormat(a);
    NumbersUndoFormat(b);
  }
}
