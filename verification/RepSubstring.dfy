/** Replacing a substring: the two-pass replacement into a buffer sized beforehand, and the bounded
    copy it is made of. */
module RepSubstring {
  import opened Helpers

  const MAXLEN := 256

  const WORD := 0x1_0000_0000

  predicate LineBreak(c: char) {
    c == '\n' || c == '\r'
  }

  // ------------------------------------------------------------------ the meaning

  /** Replacement read from left to right, one character at a time. */
  function Replace(s: string, tgt: string, rep: string): string
    requires tgt != ""
  {
    if |s| < |tgt| then s
    else if s[..|tgt|] == tgt then rep + Replace(s[|tgt|..], tgt, rep)
    else [s[0]] + Replace(s[1..], tgt, rep)
  }

  /** The number of replacements made on the way. */
  function Count(s: string, tgt: string): nat
    requires tgt != ""
  {
    if |s| < |tgt| then 0
    else if s[..|tgt|] == tgt then 1 + Count(s[|tgt|..], tgt)
    else Count(s[1..], tgt)
  }

  /** The text after the last replacement. */
  function Tail(s: string, tgt: string): string
    requires tgt != ""
  {
    if |s| < |tgt| then s
    else if s[..|tgt|] == tgt then Tail(s[|tgt|..], tgt)
    else if Count(s[1..], tgt) > 0 then Tail(s[1..], tgt)
    else s
  }

  // ------------------------------------------------------------------ strstr

  predicate OccursAt(s: string, tgt: string, i: nat) {
    i + |tgt| <= |s| && s[i..i + |tgt|] == tgt
  }

  /** strstr: the first occurrence, as an offset. */
  function Find(s: string, tgt: string): (r: Option<nat>)
    ensures r.Some? ==> r.value + |tgt| <= |s|
  {
    FindFrom(s, tgt, 0)
  }

  function FindFrom(s: string, tgt: string, i: nat): (r: Option<nat>)
    ensures r.Some? ==> r.value + |tgt| <= |s|
    decreases |s| - i
  {
    if i + |tgt| > |s| then None
    else if s[i..i + |tgt|] == tgt then Some(i)
    else FindFrom(s, tgt, i + 1)
  }

  lemma {:induction false} FindFromMeans(s: string, tgt: string, i: nat)
    ensures var r := FindFrom(s, tgt, i);
            && (r.Some? ==> r.value >= i && OccursAt(s, tgt, r.value)
                            && forall j: nat :: i <= j < r.value ==> !OccursAt(s, tgt, j))
            && (r.None? ==> forall j: nat :: i <= j ==> !OccursAt(s, tgt, j))
    decreases |s| - i
  {
    if i + |tgt| <= |s| && s[i..i + |tgt|] != tgt {
      FindFromMeans(s, tgt, i + 1);
    }
  }

  /** It is an occurrence, and there is none before it. */
  lemma FindMeans(s: string, tgt: string)
    ensures var r := Find(s, tgt);
            && (r.Some? ==> OccursAt(s, tgt, r.value) && NoneBefore(s, tgt, r.value))
            && (r.None? ==> forall i: nat :: !OccursAt(s, tgt, i))
  {
    FindFromMeans(s, tgt, 0);
  }

  lemma Shift(s: string, tgt: string, i: nat)
    requires |s| > 0
    ensures OccursAt(s[1..], tgt, i) == OccursAt(s, tgt, i + 1)
  {
    assert i + |tgt| <= |s| - 1 ==> s[1..][i..i + |tgt|] == s[i + 1..i + 1 + |tgt|];
  }

  /** One step of the reading, where the text at its start is not the target. */
  lemma ReplaceSkip(s: string, tgt: string, rep: string)
    requires tgt != "" && |s| >= |tgt| && !OccursAt(s, tgt, 0)
    ensures Replace(s, tgt, rep) == [s[0]] + Replace(s[1..], tgt, rep)
    ensures Count(s, tgt) == Count(s[1..], tgt)
    ensures Tail(s, tgt) == if Count(s[1..], tgt) > 0 then Tail(s[1..], tgt) else s
  {
  }

  lemma ReplaceHere(s: string, tgt: string, rep: string)
    requires tgt != "" && OccursAt(s, tgt, 0)
    ensures Replace(s, tgt, rep) == rep + Replace(s[|tgt|..], tgt, rep)
    ensures Count(s, tgt) == 1 + Count(s[|tgt|..], tgt)
    ensures Tail(s, tgt) == Tail(s[|tgt|..], tgt)
  {
  }

  lemma Prepend(s: string, p: nat, b: string, c: string)
    requires 0 < p <= |s|
    ensures [s[0]] + (s[1..][..p - 1] + b + c) == s[..p] + b + c
  {
    assert [s[0]] + s[1..][..p - 1] == s[..p];
  }

  predicate NoneBefore(s: string, tgt: string, p: nat) {
    forall i: nat :: i < p ==> !OccursAt(s, tgt, i)
  }

  lemma ShiftFirst(s: string, tgt: string, p: nat)
    requires 0 < p && OccursAt(s, tgt, p) && NoneBefore(s, tgt, p)
    ensures |s| > 0 && |s| >= |tgt| && p + |tgt| <= |s| && !OccursAt(s, tgt, 0)
    ensures OccursAt(s[1..], tgt, p - 1) && NoneBefore(s[1..], tgt, p - 1)
    ensures s[1..][p - 1 + |tgt|..] == s[p + |tgt|..]
  {
    forall i: nat ensures OccursAt(s[1..], tgt, i) == OccursAt(s, tgt, i + 1) {
      Shift(s, tgt, i);
    }
    assert OccursAt(s, tgt, p - 1 + 1);
  }

  lemma ReplaceAtOnce(s: string, tgt: string, rep: string, rest: string)
    requires tgt != "" && OccursAt(s, tgt, 0) && rest == s[|tgt|..]
    ensures Replace(s, tgt, rep) == s[..0] + rep + Replace(rest, tgt, rep)
    ensures Count(s, tgt) == 1 + Count(rest, tgt) && Tail(s, tgt) == Tail(rest, tgt)
  {
    ReplaceHere(s, tgt, rep);
    assert s[..0] + rep == rep;
  }

  /** Up to the first occurrence nothing is replaced. */
  lemma {:induction false} ReplaceAtFirst(s: string, tgt: string, rep: string, p: nat)
    requires tgt != "" && OccursAt(s, tgt, p) && NoneBefore(s, tgt, p)
    ensures p + |tgt| <= |s|
    ensures var rest := s[p + |tgt|..];
            && Replace(s, tgt, rep) == s[..p] + rep + Replace(rest, tgt, rep)
            && Count(s, tgt) == 1 + Count(rest, tgt)
            && Tail(s, tgt) == Tail(rest, tgt)
  {
    if p == 0 {
      hide Replace, Count, Tail;
      ReplaceAtOnce(s, tgt, rep, s[|tgt|..]);
    } else {
      hide *;
      ShiftFirst(s, tgt, p);
      ReplaceSkip(s, tgt, rep);
      ReplaceAtFirst(s[1..], tgt, rep, p - 1);
      Prepend(s, p, rep, Replace(s[p + |tgt|..], tgt, rep));
    }
  }

  lemma {:induction false} ReplaceNothing(s: string, tgt: string, rep: string)
    requires tgt != "" && forall i: nat :: !OccursAt(s, tgt, i)
    ensures Replace(s, tgt, rep) == s && Count(s, tgt) == 0 && Tail(s, tgt) == s
  {
    if |s| >= |tgt| {
      ReplaceSkip(s, tgt, rep);
      forall i: nat ensures !OccursAt(s[1..], tgt, i) {
        Shift(s, tgt, i);
      }
      ReplaceNothing(s[1..], tgt, rep);
    }
  }

  lemma {:induction false} ReplaceLength(s: string, tgt: string, rep: string)
    requires tgt != ""
    ensures |Replace(s, tgt, rep)| == |s| + (|rep| - |tgt|) * Count(s, tgt)
  {
    if |s| < |tgt| {
    } else if s[..|tgt|] == tgt {
      var rest := s[|tgt|..];
      ReplaceHere(s, tgt, rep);
      var d, n := |rep| - |tgt|, Count(rest, tgt);
      hide *;
      ReplaceLength(rest, tgt, rep);
      OneMore(d, n);
    } else {
      ReplaceSkip(s, tgt, rep);
      hide *;
      ReplaceLength(s[1..], tgt, rep);
    }
  }

  lemma OneMore(d: int, n: int)
    ensures d * (1 + n) == d + d * n
  {
  }

  /** What is asked of malloc, in 32-bit unsigned arithmetic up to the addition. */
  function Size(orgLength: nat, tgtLength: nat, repLength: nat, n: nat): nat {
    orgLength + (repLength - tgtLength) % WORD * n % WORD + 1
  }

  lemma Growth(d: int, n: nat, x: int)
    requires x == d * n && d < WORD
    ensures d >= 0 ==> x >= 0 && d % WORD * n == x
    ensures d < 0 ==> x <= 0
  {
    assert d >= 0 ==> d % WORD == d;
  }

  /** The buffer holds the result and its terminator if and only if the growth does not wrap round. */
  lemma SizeSuffices(s: string, tgt: string, rep: string)
    requires tgt != "" && |tgt| < WORD && |rep| < WORD
    ensures var n := Count(s, tgt);
            Size(|s|, |tgt|, |rep|, n) > |Replace(s, tgt, rep)| <==> (|rep| - |tgt|) * n < WORD
  {
    hide Replace, Count;
    var n := Count(s, tgt);
    ReplaceLength(s, tgt, rep);
    var d := |rep| - |tgt|;
    var x := d * n;
    Growth(d, n, x);
    var y := d % WORD * n;
    assert Size(|s|, |tgt|, |rep|, n) == |s| + y % WORD + 1;
  }

  lemma {:induction false} TailShort(s: string, tgt: string)
    requires tgt != ""
    ensures |Tail(s, tgt)| <= |s|
  {
    if |s| < |tgt| {
    } else if s[..|tgt|] == tgt {
      TailShort(s[|tgt|..], tgt);
    } else {
      TailShort(s[1..], tgt);
    }
  }

  lemma Remainder(x: int)
    requires x >= WORD
    ensures x - x % WORD >= WORD
  {
  }

  /** The last copy, of the text behind the last occurrence, starts inside the buffer if and only if the
      growth does not wrap round. */
  lemma LastWriteInside(s: string, tgt: string, rep: string)
    requires tgt != "" && |s| < WORD && |tgt| < WORD && |rep| < WORD
    ensures var n := Count(s, tgt);
            |Replace(s, tgt, rep)| - |Tail(s, tgt)| < Size(|s|, |tgt|, |rep|, n) <==> (|rep| - |tgt|) * n < WORD
  {
    hide Replace, Count, Tail;
    var n := Count(s, tgt);
    SizeSuffices(s, tgt, rep);
    ReplaceLength(s, tgt, rep);
    TailShort(s, tgt);
    var d := |rep| - |tgt|;
    var x := d * n;
    Growth(d, n, x);
    if x >= WORD {
      Remainder(x);
      var y := d % WORD * n;
      assert Size(|s|, |tgt|, |rep|, n) == |s| + y % WORD + 1;
    }
  }

  // ------------------------------------------------------------------ the bounded copy

  /** What strnz__cpy copies: up to a line break, and no more than `max` characters. */
  function Cut(s: string, max: nat): string {
    if s == "" || max == 0 || LineBreak(s[0]) then "" else [s[0]] + Cut(s[1..], max - 1)
  }

  lemma {:induction false} CutMeans(s: string, max: nat)
    ensures |Cut(s, max)| <= |s| && |Cut(s, max)| <= max && Cut(s, max) == s[..|Cut(s, max)|]
    ensures |Cut(s, max)| < |s| && |Cut(s, max)| < max ==> LineBreak(s[|Cut(s, max)|])
    ensures forall i :: 0 <= i < |Cut(s, max)| ==> !LineBreak(s[i])
  {
    if !(s == "" || max == 0 || LineBreak(s[0])) {
      CutMeans(s[1..], max - 1);
    }
  }

  /** A cut is fixed by what stands before it. */
  lemma CutFixed(s: string, max: nat, len: nat)
    requires len <= |s| && len <= max && forall i :: 0 <= i < len ==> !LineBreak(s[i])
    requires len == |s| || len == max || LineBreak(s[len])
    ensures Cut(s, max) == s[..len]
  {
    CutMeans(s, max);
  }

  /** strnz__cpy, with the destination pointer as an offset; a limit of zero writes nothing at all. */
  method Copy(d: array<char>, at: nat, s: string, max: nat) returns (len: nat)
    requires max > 0 ==> at + |Cut(s, max)| < d.Length
    modifies d
    ensures len == |Cut(s, max)|
    ensures len <= |s| && len <= max && forall i :: 0 <= i < len ==> s[i] != '\n' && s[i] != '\r'
    ensures len == |s| || len == max || s[len] == '\n' || s[len] == '\r'
    ensures max > 0 ==> d[at..at + len] == s[..len]
    ensures max == 0 ==> d[..] == old(d[..])
    ensures max > 0 ==> d[at..at + len] == Cut(s, max) && d[at + len] == '\0'
    ensures forall i :: 0 <= i < d.Length && !(at <= i <= at + len) ==> d[i] == old(d[i])
  {
    len := 0;
    CutMeans(s, max);
    hide Cut;
    if max == 0 {
      return;
    }
    while len < |s| && s[len] != '\n' && s[len] != '\r' && len < max
      invariant len <= |s| && len <= max && (forall i :: 0 <= i < len ==> !LineBreak(s[i]))
      invariant len <= |Cut(s, max)|
      invariant d[at..at + len] == s[..len]
      invariant forall i :: 0 <= i < d.Length && !(at <= i < at + len) ==> d[i] == old(d[i])
    {
      d[at + len] := s[len];
      len := len + 1;
    }
    CutFixed(s, max, len);
    d[at + len] := '\0';
  }

  lemma {:induction false} CutPrefix(s: string, max: nat)
    requires max <= |s|
    ensures Cut(s, max) == Cut(s[..max], max)
  {
    if max > 0 {
      assert s[..max][1..] == s[1..][..max - 1];
      CutPrefix(s[1..], max - 1);
    }
  }

  // ------------------------------------------------------------------ the pieces of the result

  /** A text copied with a limit of its own. */
  datatype Piece = Piece(text: string, limit: nat)

  function Kept(p: Piece): string {
    Cut(p.text, p.limit)
  }

  predicate Whole(p: Piece) {
    Kept(p) == p.text
  }

  ghost predicate AllWhole(ps: seq<Piece>) {
    forall i :: 0 <= i < |ps| ==> Whole(ps[i])
  }

  /** What the copying pass copies, in order. */
  function Pieces(s: string, tgt: string, rep: string): seq<Piece>
    requires tgt != ""
    decreases |s|
  {
    match Find(s, tgt)
    case None => [Piece(s, MAXLEN - 1)]
    case Some(p) => [Piece(s[..p], p)] + ([Piece(rep, MAXLEN - 1)] + Pieces(s[p + |tgt|..], tgt, rep))
  }

  function Text(ps: seq<Piece>): string {
    if ps == [] then "" else Text(ps[..|ps| - 1]) + ps[|ps| - 1].text
  }

  /** What a reader finds in front of the first terminator: nothing after the first piece cut short. */
  ghost function Written(ps: seq<Piece>): string {
    if ps == [] then ""
    else
      var before := ps[..|ps| - 1];
      if AllWhole(before) then Written(before) + Kept(ps[|ps| - 1]) else Written(before)
  }

  lemma TextSnoc(ps: seq<Piece>, p: Piece)
    ensures Text(ps + [p]) == Text(ps) + p.text
    ensures Written(ps + [p]) == if AllWhole(ps) then Written(ps) + Kept(p) else Written(ps)
    ensures AllWhole(ps + [p]) <==> AllWhole(ps) && Whole(p)
  {
    var qs := ps + [p];
    assert qs[..|ps|] == ps && qs[|ps|] == p;
    assert AllWhole(ps) && Whole(p) ==> AllWhole(qs);
    if AllWhole(qs) {
      assert forall i :: 0 <= i < |ps| ==> ps[i] == qs[i];
    }
  }

  lemma {:induction false} WrittenIs(ps: seq<Piece>)
    ensures |Written(ps)| <= |Text(ps)| && Written(ps) == Text(ps)[..|Written(ps)|]
    ensures Written(ps) == Text(ps) <==> AllWhole(ps)
    ensures !AllWhole(ps) ==> |Written(ps)| < |Text(ps)|
  {
    if ps != [] {
      var before, p := ps[..|ps| - 1], ps[|ps| - 1];
      assert ps == before + [p];
      TextSnoc(before, p);
      WrittenIs(before);
      CutMeans(p.text, p.limit);
      hide *;
    }
  }

  lemma {:induction false} TextJoin(ps: seq<Piece>, qs: seq<Piece>)
    ensures Text(ps + qs) == Text(ps) + Text(qs)
  {
    if qs == [] {
      assert ps + qs == ps;
    } else {
      hide *;
      var before, q := qs[..|qs| - 1], qs[|qs| - 1];
      assert Text(qs) == Text(before) + q.text by {
        assert qs == before + [q];
        TextSnoc(before, q);
      }
      assert Text(ps + qs) == Text(ps + before) + q.text by {
        assert ps + qs == ps + before + [q];
        TextSnoc(ps + before, q);
      }
      TextJoin(ps, before);
      Assoc(Text(ps), Text(before), q.text);
    }
  }

  lemma TextOne(p: Piece)
    ensures Text([p]) == p.text
  {
    assert [p][..0] == [];
  }

  /** The first occurrence splits off two pieces. */
  lemma PiecesAtFirst(s: string, tgt: string, rep: string, p: nat, rest: string)
    requires tgt != "" && Find(s, tgt) == Some(p) && p + |tgt| <= |s| && rest == s[p + |tgt|..]
    ensures Pieces(s, tgt, rep) ==
            [Piece(s[..p], p)] + ([Piece(rep, MAXLEN - 1)] + Pieces(rest, tgt, rep))
  {
    hide Replace, Count, Tail, Find, Cut;
  }

  lemma TextOfThree(a: Piece, b: Piece, c: seq<Piece>)
    ensures Text([a] + ([b] + c)) == a.text + b.text + Text(c)
  {
    TextOne(a);
    TextOne(b);
    TextJoin([a], [b] + c);
    TextJoin([b], c);
    hide *;
    assert a.text + (b.text + Text(c)) == a.text + b.text + Text(c);
  }

  lemma {:induction false} PiecesText(s: string, tgt: string, rep: string)
    requires tgt != ""
    ensures Text(Pieces(s, tgt, rep)) == Replace(s, tgt, rep)
    decreases |s|
  {
    FindMeans(s, tgt);
    match Find(s, tgt)
    case None =>
      ReplaceNothing(s, tgt, rep);
      TextOne(Piece(s, MAXLEN - 1));
    case Some(p) =>
      var rest := s[p + |tgt|..];
      ReplaceAtFirst(s, tgt, rep, p);
      hide *;
      PiecesAtFirst(s, tgt, rep, p, rest);
      PiecesText(rest, tgt, rep);
      TextOfThree(Piece(s[..p], p), Piece(rep, MAXLEN - 1), Pieces(rest, tgt, rep));
  }

  ghost predicate Unbroken(s: string) {
    forall i :: 0 <= i < |s| ==> s[i] != '\n' && s[i] != '\r'
  }

  lemma WholeMeans(p: Piece)
    ensures Whole(p) <==> Unbroken(p.text) && |p.text| <= p.limit
  {
    CutMeans(p.text, p.limit);
    if Unbroken(p.text) && |p.text| <= p.limit {
      CutFixed(p.text, p.limit, |p.text|);
    }
  }

  lemma UnbrokenJoin(a: string, b: string)
    ensures Unbroken(a + b) <==> Unbroken(a) && Unbroken(b)
  {
    if Unbroken(a + b) {
      assert forall i :: 0 <= i < |a| ==> a[i] == (a + b)[i];
      assert forall i :: 0 <= i < |b| ==> b[i] == (a + b)[|a| + i];
    }
  }

  lemma AllWholeCons(p: Piece, ps: seq<Piece>)
    ensures AllWhole([p] + ps) <==> Whole(p) && AllWhole(ps)
  {
    var qs := [p] + ps;
    if AllWhole(qs) {
      assert qs[0] == p;
      assert forall i :: 0 <= i < |ps| ==> ps[i] == qs[i + 1];
    }
  }

  lemma {:induction false} PiecesWhole(s: string, tgt: string, rep: string)
    requires tgt != ""
    ensures AllWhole(Pieces(s, tgt, rep)) <==>
            && Unbroken(Replace(s, tgt, rep)) && |Tail(s, tgt)| < MAXLEN
            && (Count(s, tgt) > 0 ==> |rep| < MAXLEN)
    decreases |s|
  {
    FindMeans(s, tgt);
    match Find(s, tgt)
    case None =>
      ReplaceNothing(s, tgt, rep);
      hide Replace, Count, Tail, Cut;
      var p := Piece(s, MAXLEN - 1);
      WholeMeans(p);
      AllWholeCons(p, []);
      assert [p] + [] == [p];
    case Some(p) =>
      var rest := s[p + |tgt|..];
      var head, mid, more := Piece(s[..p], p), Piece(rep, MAXLEN - 1), Pieces(rest, tgt, rep);
      hide *;
      ReplaceAtFirst(s, tgt, rep, p);
      PiecesAtFirst(s, tgt, rep, p, rest);
      PiecesWhole(rest, tgt, rep);
      WholeMeans(head);
      WholeMeans(mid);
      AllWholeCons(head, [mid] + more);
      AllWholeCons(mid, more);
      UnbrokenJoin(s[..p] + rep, Replace(rest, tgt, rep));
      UnbrokenJoin(s[..p], rep);
  }

  /** Line breaks in the result are those of the inserted text and those of the text around the
      occurrences. */
  lemma {:induction false} UnbrokenReplace(s: string, tgt: string, rep: string)
    requires tgt != ""
    ensures Unbroken(Replace(s, tgt, rep)) <==>
            Unbroken(Replace(s, tgt, "")) && (Count(s, tgt) > 0 ==> Unbroken(rep))
  {
    if |s| < |tgt| {
    } else if s[..|tgt|] == tgt {
      var rest := s[|tgt|..];
      ReplaceHere(s, tgt, rep);
      ReplaceHere(s, tgt, "");
      hide *;
      UnbrokenReplace(rest, tgt, rep);
      UnbrokenJoin(rep, Replace(rest, tgt, rep));
      assert "" + Replace(rest, tgt, "") == Replace(rest, tgt, "");
    } else {
      ReplaceSkip(s, tgt, rep);
      ReplaceSkip(s, tgt, "");
      hide *;
      UnbrokenReplace(s[1..], tgt, rep);
      UnbrokenJoin([s[0]], Replace(s[1..], tgt, rep));
      UnbrokenJoin([s[0]], Replace(s[1..], tgt, ""));
    }
  }

  /** What the copying pass needs of its arguments: no line break in what is inserted nor around the
      occurrences, and the two texts that are copied up to the limit shorter than it. */
  ghost predicate Copied(org: string, tgt: string, rep: string)
    requires tgt != ""
  {
    && Unbroken(Replace(org, tgt, "")) && Unbroken(rep)
    && |rep| < 256 && |Tail(org, tgt)| < 256
  }

  /** What the copying pass leaves is the replacement if and only if its arguments are fit to be copied;
      otherwise it is a part of the replacement, from the left. */
  lemma WrittenIsReplaced(s: string, tgt: string, rep: string)
    requires tgt != "" && Count(s, tgt) > 0
    ensures var w, full := Written(Pieces(s, tgt, rep)), Replace(s, tgt, rep);
            && |w| <= |full| && w == full[..|w|]
            && (w == full <==> Copied(s, tgt, rep))
  {
    UnbrokenReplace(s, tgt, rep);
    hide Replace, Count, Tail, Pieces, Written, Unbroken, AllWhole;
    PiecesText(s, tgt, rep);
    PiecesWhole(s, tgt, rep);
    WrittenIs(Pieces(s, tgt, rep));
  }

  // ------------------------------------------------------------------ the result

  /** What comes of a call: a null pointer, a string, or a write past the end of the buffer. */
  datatype Outcome = Null | Returned(text: string) | Overrun

  /** strdup. */
  function Dup(s: string, granted: bool): Outcome {
    if granted then Returned(s) else Null
  }

  /** The growth does not wrap round, so that the buffer is large enough. */
  predicate Fits(org: string, tgt: string, rep: string)
    requires tgt != ""
  {
    (|rep| - |tgt|) * Count(org, tgt) < WORD
  }

  /** What the function returns, by its early returns and its copying pass. */
  ghost function Result(org: string, tgt: string, rep: string, same: bool, granted: bool): Outcome {
    if org == "" || tgt == "" || rep == "" then Null
    else if Count(org, tgt) == 0 then Dup(org, granted)
    else if Count(rep, tgt) > 0 then Null
    else if same then Dup(org, granted)
    else if org == tgt then Dup(rep, granted)
    else if !granted then Null
    else if !Fits(org, tgt, rep) then Overrun
    else Returned(Written(Pieces(org, tgt, rep)))
  }

  /** When a replacement is what a caller gets, by the arguments alone. */
  ghost predicate Replaces(org: string, tgt: string, rep: string, same: bool, granted: bool)
    requires tgt != ""
  {
    && org != "" && rep != "" && granted
    && (|| Count(org, tgt) == 0
        || (Count(rep, tgt) == 0 && !same && (org == tgt || (Fits(org, tgt, rep) && Copied(org, tgt, rep)))))
  }

  lemma CountNone(s: string, tgt: string)
    requires tgt != "" && Count(s, tgt) == 0
    ensures Replace(s, tgt, s) == s && forall rep :: Replace(s, tgt, rep) == s
  {
    FindMeans(s, tgt);
    var f := Find(s, tgt);
    if f.Some? {
      ReplaceAtFirst(s, tgt, s, f.value);
    }
    forall rep ensures Replace(s, tgt, rep) == s {
      ReplaceNothing(s, tgt, rep);
    }
  }

  /** End to end, for every target that is not empty: the result is the leftmost, non-overlapping
      replacement exactly in these cases. */
  lemma ResultIsReplaced(org: string, tgt: string, rep: string, same: bool, granted: bool)
    requires tgt != "" && (same ==> org == tgt)
    ensures Result(org, tgt, rep, same, granted) == Returned(Replace(org, tgt, rep)) <==>
            Replaces(org, tgt, rep, same, granted)
  {
    if Count(org, tgt) == 0 {
      CountNone(org, tgt);
    } else {
      if org == tgt {
        ReplaceSelf(tgt, rep);
      }
      WrittenIsReplaced(org, tgt, rep);
      hide Replace, Count, Copied, Written, Pieces, Fits;
    }
  }

  ghost predicate Occurs(s: string, tgt: string) {
    exists i: nat :: OccursAt(s, tgt, i)
  }

  lemma CountOccurs(s: string, tgt: string)
    requires tgt != ""
    ensures Count(s, tgt) > 0 <==> Occurs(s, tgt)
  {
    FindMeans(s, tgt);
    var p := Find(s, tgt);
    hide Find;
    if p.Some? {
      ReplaceAtFirst(s, tgt, "", p.value);
    } else {
      ReplaceNothing(s, tgt, "");
    }
  }

  /** When there is nothing, and when a write goes past the end of the buffer; and in what other cases one
      of the arguments is returned as it is. */
  lemma ResultKinds(org: string, tgt: string, rep: string, same: bool, granted: bool)
    ensures var r := Result(org, tgt, rep, same, granted);
            var there, inside := Occurs(org, tgt), Occurs(rep, tgt);
            && (r == Null <==> org == "" || tgt == "" || rep == "" || !granted || (there && inside))
            && (r == Overrun <==>
                  && org != "" && tgt != "" && rep != "" && granted && there && !inside && !same && org != tgt
                  && (|rep| - |tgt|) * Count(org, tgt) >= 0x1_0000_0000)
            && (r.Returned? && (!there || same) ==> r.text == org)
            && (r.Returned? && there && !same && org == tgt ==> r.text == rep)
  {
    if tgt != "" {
      CountOccurs(org, tgt);
      CountOccurs(rep, tgt);
    }
    hide Count, Written, Pieces, Occurs;
  }

  /** Replacing the whole text. */
  lemma ReplaceSelf(tgt: string, rep: string)
    requires tgt != ""
    ensures Replace(tgt, tgt, rep) == rep && Count(tgt, tgt) == 1
  {
    ReplaceHere(tgt, tgt, rep);
    assert tgt[|tgt|..] == "";
  }

  // ------------------------------------------------------------------ the buffer

  /** The string in front of the first terminator. */
  function CString(d: seq<char>): string {
    if d == [] || d[0] == '\0' then "" else [d[0]] + CString(d[1..])
  }

  predicate ZeroFree(s: string) {
    '\0' !in s
  }

  lemma {:induction false} CStringAt(d: seq<char>, w: string)
    requires |w| < |d| && d[..|w|] == w && d[|w|] == '\0' && ZeroFree(w)
    ensures CString(d) == w
  {
    if w != "" {
      assert d[0] == w[0];
      assert d[1..][..|w| - 1] == d[..|w|][1..] == w[1..];
      CStringAt(d[1..], w[1..]);
    }
  }

  lemma {:induction false} ReplaceZeroFree(s: string, tgt: string, rep: string)
    requires tgt != "" && ZeroFree(s) && ZeroFree(rep)
    ensures ZeroFree(Replace(s, tgt, rep))
  {
    if |s| >= |tgt| {
      if s[..|tgt|] == tgt {
        ReplaceZeroFree(s[|tgt|..], tgt, rep);
      } else {
        ReplaceZeroFree(s[1..], tgt, rep);
      }
    }
  }

  /** The buffer after the pieces `ps` have been copied into it one behind the other. */
  ghost predicate Bears(d: seq<char>, ps: seq<Piece>) {
    var w := |Written(ps)|;
    && w <= |Text(ps)| <= |d| && d[..w] == Written(ps)
    && (!AllWhole(ps) ==> w < |Text(ps)| && d[w] == '\0')
    && (AllWhole(ps) ==> w == |Text(ps)|)
  }

  /** One more piece copied behind the others. */
  lemma Appended(before: seq<char>, after: seq<char>, ps: seq<Piece>, p: Piece, at: nat)
    requires Bears(before, ps) && at == |Text(ps)| && |after| == |before| && at + |p.text| < |after|
    requires p.limit == 0 ==> p.text == "" && after == before
    requires |Kept(p)| <= |p.text|
    requires p.limit > 0 ==> after[at..at + |Kept(p)|] == Kept(p) && after[at + |Kept(p)|] == '\0'
    requires after[..at] == before[..at]
    ensures Bears(after, ps + [p])
    ensures p.limit > 0 ==> after[|Written(ps + [p])|] == '\0'
  {
    TextSnoc(ps, p);
    CutMeans(p.text, p.limit);
    hide Text, Written, AllWhole, Cut;
    var w := |Written(ps)|;
    assert before[..w] == before[..at][..w] == after[..w];
    if AllWhole(ps) {
      assert w == at;
      assert after[..at + |Kept(p)|] == after[..at] + after[at..at + |Kept(p)|];
    } else {
      assert after[w] == after[..at][w];
    }
  }

  // ------------------------------------------------------------------ the replacement

  /** The same from where the copying stands. */
  lemma PiecesStep(org: string, ip: nat, tgt: string, rep: string, p: nat)
    requires tgt != "" && ip <= |org| && Find(org[ip..], tgt) == Some(p)
    ensures ip + p + |tgt| <= |org|
    ensures Pieces(org[ip..], tgt, rep) ==
            [Piece(org[ip..][..p], p)] +
            ([Piece(rep, MAXLEN - 1)] + Pieces(org[ip + p + |tgt|..], tgt, rep))
    ensures Count(org[ip..], tgt) == 1 + Count(org[ip + p + |tgt|..], tgt)
  {
    var s, rest := org[ip..], org[ip + p + |tgt|..];
    FindMeans(s, tgt);
    ReplaceAtFirst(s, tgt, rep, p);
    hide *;
    assert s[p + |tgt|..] == rest;
    PiecesAtFirst(s, tgt, rep, p, rest);
  }

  lemma PiecesEnd(s: string, tgt: string, rep: string)
    requires tgt != ""
    ensures Count(s, tgt) == 0 <==> Find(s, tgt).None?
    ensures Count(s, tgt) == 0 ==> Pieces(s, tgt, rep) == [Piece(s, MAXLEN - 1)]
  {
    var f := Find(s, tgt);
    FindMeans(s, tgt);
    if f.None? {
      ReplaceNothing(s, tgt, rep);
    } else {
      ReplaceAtFirst(s, tgt, rep, f.value);
    }
  }

  lemma CountStep(s: string, tgt: string, p: nat, rest: string)
    requires tgt != "" && Find(s, tgt) == Some(p) && p + |tgt| <= |s| && rest == s[p + |tgt|..]
    ensures Count(s, tgt) == 1 + Count(rest, tgt) && |rest| < |s|
  {
    FindMeans(s, tgt);
    ReplaceAtFirst(s, tgt, "", p);
  }

  /** The first pass; `ip` is the text the pointer points to. */
  method CountOccurrences(org: string, tgt: string) returns (n: nat)
    requires tgt != ""
    ensures n == Count(org, tgt) && n <= |org|
  {
    n := 0;
    var ip := org;
    ghost var all := Count(org, tgt);
    hide *;
    while Find(ip, tgt).Some?
      invariant n + Count(ip, tgt) == all && n + |ip| <= |org|
      decreases |ip|
    {
      var tmp := Find(ip, tgt).value;
      var rest := ip[tmp + |tgt|..];
      CountStep(ip, tgt, tmp, rest);
      n, ip := n + 1, rest;
    }
    PiecesEnd(ip, tgt, "");
  }

  /** strnz__cpy at the end of what is already there. */
  method CopyPiece(out: array<char>, ghost done: seq<Piece>, tmp: nat, s: string, ghost p: Piece, limit: nat)
    requires tmp == |Text(done)| && Bears(out[..], done) && tmp + |p.text| < out.Length
    requires limit == p.limit && Cut(s, limit) == Kept(p) && (limit == 0 ==> p.text == "")
    modifies out
    ensures Bears(out[..], done + [p]) && |Text(done + [p])| == tmp + |p.text|
    ensures limit > 0 ==> |Written(done + [p])| < out.Length && out[|Written(done + [p])|] == '\0'
  {
    TextSnoc(done, p);
    CutMeans(p.text, p.limit);
    WrittenIs(done + [p]);
    hide Text, Written, AllWhole, Cut, Bears;
    var len := Copy(out, tmp, s, limit);
    Appended(old(out[..]), out[..], done, p, tmp);
  }

  /** How much of the result the pieces copied so far make up. */
  lemma PiecesFit(done: seq<Piece>, p: Piece, rest: seq<Piece>, org: string, tgt: string, rep: string)
    requires tgt != "" && done + ([p] + rest) == Pieces(org, tgt, rep)
    ensures done + [p] + rest == Pieces(org, tgt, rep)
    ensures |Text(done)| + |p.text| <= |Replace(org, tgt, rep)|
  {
    hide *;
    PiecesText(org, tgt, rep);
    TextJoin(done, [p] + rest);
    TextJoin([p], rest);
    TextOne(p);
    assert done + [p] + rest == done + ([p] + rest);
  }

  /** The second pass. */
  method CopyPieces(org: string, tgt: string, rep: string, count: nat, out: array<char>)
    requires tgt != "" && count == Count(org, tgt) && out.Length > |Replace(org, tgt, rep)|
    modifies out
    ensures var w := Written(Pieces(org, tgt, rep));
            |w| < out.Length && out[..|w|] == w && out[|w|] == '\0'
  {
    hide Text, Written, AllWhole, Cut, Bears, Pieces, Replace, Count, Find, Tail, Kept;
    var n, tmp, ip := count, 0, 0;
    ghost var done: seq<Piece> := [];
    assert org[0..] == org;
    BearsNothing(out[..]);
    while n > 0
      invariant 0 <= ip <= |org| && n == Count(org[ip..], tgt)
      invariant done + Pieces(org[ip..], tgt, rep) == Pieces(org, tgt, rep)
      invariant tmp == |Text(done)| && Bears(out[..], done)
    {
      PiecesEnd(org[ip..], tgt, rep);
      var headLength := Find(org[ip..], tgt).value;
      PiecesStep(org, ip, tgt, rep, headLength);
      ghost var head, mid := Piece(org[ip..][..headLength], headLength), Piece(rep, MAXLEN - 1);
      ghost var rest := Pieces(org[ip + headLength + |tgt|..], tgt, rep);
      PiecesFit(done, head, [mid] + rest, org, tgt, rep);
      HeadKept(org[ip..], headLength);
      CopyPiece(out, done, tmp, org[ip..], head, headLength);
      tmp := tmp + headLength;
      PiecesFit(done + [head], mid, rest, org, tgt, rep);
      RepKept(rep, MAXLEN - 1);
      CopyPiece(out, done + [head], tmp, rep, mid, MAXLEN - 1);
      tmp := tmp + |rep|;
      ip := ip + headLength + |tgt|;
      done := done + [head] + [mid];
      n := n - 1;
    }
    PiecesEnd(org[ip..], tgt, rep);
    ghost var last := Piece(org[ip..], MAXLEN - 1);
    assert [last] + [] == [last];
    PiecesFit(done, last, [], org, tgt, rep);
    RepKept(org[ip..], MAXLEN - 1);
    CopyPiece(out, done, tmp, org[ip..], last, MAXLEN - 1);
    assert done + [last] == Pieces(org, tgt, rep);
    Borne(out[..], done + [last]);
  }

  lemma BearsNothing(d: seq<char>)
    ensures Bears(d, []) && Text([]) == ""
  {
  }

  lemma Borne(d: seq<char>, ps: seq<Piece>)
    requires Bears(d, ps)
    ensures |Written(ps)| <= |d| && d[..|Written(ps)|] == Written(ps)
  {
  }

  lemma HeadKept(s: string, n: nat)
    requires n <= |s|
    ensures Cut(s, n) == Kept(Piece(s[..n], n))
  {
    CutPrefix(s, n);
  }

  lemma RepKept(s: string, n: nat)
    ensures Cut(s, n) == Kept(Piece(s, n))
  {
  }

  /** An argument: a null pointer, or a string no longer than an unsigned int can count. */
  predicate Argument(s: Option<string>) {
    s.Some? ==> ZeroFree(s.value) && |s.value| < WORD
  }

  /** rep_substring. `same` says that the first two arguments are one pointer, `granted` that the
      one allocation made, by strdup or malloc, succeeds. */
  method RepSubstring(orgS: Option<string>, tgtS: Option<string>, repS: Option<string>, same: bool, granted: bool)
    returns (r: Outcome)
    requires Argument(orgS) && Argument(tgtS) && Argument(repS) && (same ==> tgtS == orgS)
    ensures orgS.None? || tgtS.None? || repS.None? ==> r == Null
    ensures orgS.Some? && tgtS.Some? && repS.Some? ==>
              r == Result(orgS.value, tgtS.value, repS.value, same, granted)
    ensures orgS.Some? && tgtS.Some? && repS.Some? && tgtS.value != "" ==>
              (r == Returned(Replace(orgS.value, tgtS.value, repS.value)) <==>
                 Replaces(orgS.value, tgtS.value, repS.value, same, granted))
    ensures orgS.Some? && tgtS.Some? && repS.Some? ==>
              (r == Null <==>
                 || orgS.value == "" || tgtS.value == "" || repS.value == "" || !granted
                 || (Occurs(orgS.value, tgtS.value) && Occurs(repS.value, tgtS.value)))
  {
    if orgS == None || tgtS == None || repS == None {
      return Null;
    }
    var org, tgt, rep := orgS.value, tgtS.value, repS.value;
    if tgt != "" {
      ResultIsReplaced(org, tgt, rep, same, granted);
    }
    ResultKinds(org, tgt, rep, same, granted);
    hide Replace, Count, Replaces, Written, Pieces, Find, Tail, Occurs;
    if org == "" || tgt == "" || rep == "" {
      return Null;
    }
    PiecesEnd(org, tgt, rep);
    PiecesEnd(rep, tgt, rep);
    if Find(org, tgt) == None {
      return Dup(org, granted);
    }
    if Find(rep, tgt) != None {
      return Null;
    }
    if same {
      return Dup(org, granted);
    }
    if org == tgt {
      return Dup(rep, granted);
    }
    var n := CountOccurrences(org, tgt);
    if !granted {
      return Null;
    }
    if (|rep| - |tgt|) * n >= WORD {
      // the buffer is too small, and the last copy starts outside of it: LastWriteInside
      return Overrun;
    }
    r := Replaced(org, tgt, rep, n);
  }

  /** The allocation and the copying. */
  method Replaced(org: string, tgt: string, rep: string, n: nat) returns (r: Outcome)
    requires tgt != "" && n == Count(org, tgt) > 0 && Argument(Some(org)) && Argument(Some(tgt)) && Argument(Some(rep))
    requires (|rep| - |tgt|) * n < WORD
    ensures r == Returned(Written(Pieces(org, tgt, rep)))
  {
    SizeSuffices(org, tgt, rep);
    ReplaceZeroFree(org, tgt, rep);
    hide *;
    var out := new char[Size(|org|, |tgt|, |rep|, n)];
    CopyPieces(org, tgt, rep, n, out);
    ghost var w := Written(Pieces(org, tgt, rep));
    WrittenIsReplaced(org, tgt, rep);
    FrontZeroFree(Replace(org, tgt, rep), |w|);
    CStringAt(out[..], w);
    return Returned(CString(out[..]));
  }

  lemma FrontZeroFree(s: string, n: nat)
    requires ZeroFree(s) && n <= |s|
    ensures ZeroFree(s[..n])
  {
  }

  // ------------------------------------------------------------------ inputs on both sides

  lemma {:induction false} NoneIn(s: string, c: char)
    requires c !in s
    ensures Count(s, [c]) == 0 && Tail(s, [c]) == s
  {
    if s != "" {
      assert s[..1] == [s[0]];
      NoneIn(s[1..], c);
    }
  }

  /** A replacement with the target in it is refused, though the text asked for could be copied. */
  lemma RefusedExample()
    ensures Copied("ab", "a", "aa") && Result("ab", "a", "aa", false, true) == Null
  {
    NoneIn("b", 'a');
    CountNone("b", "a");
    assert "ab"[..1] == "a" && "ab"[1..] == "b";
    assert "aa"[..1] == "a";
    ReplaceHere("ab", "a", "");
    ReplaceHere("aa", "a", "");
    assert "" + Replace("b", "a", "") == "b";
  }

  /** 256 characters behind the last occurrence: one is lost. */
  lemma TailLost(tail: string)
    requires |tail| == 256 && 'a' !in tail
    ensures Result("a" + tail, "a", "b", false, true).Returned?
    ensures Result("a" + tail, "a", "b", false, true) != Returned(Replace("a" + tail, "a", "b"))
  {
    var org := "a" + tail;
    assert org[..1] == "a" && org[1..] == tail;
    ReplaceHere(org, "a", "b");
    NoneIn(tail, 'a');
    NoneIn("b", 'a');
    ResultIsReplaced(org, "a", "b", false, true);
    hide Count, Tail, Replace, Written, Pieces;
  }

  lemma {:induction false} CountRepeated(c: char, n: nat)
    ensures Count(seq(n, i => c), [c]) == n
  {
    if n > 0 {
      var s := seq(n, i => c);
      assert s[..1] == [c] && s[1..] == seq(n - 1, i => c);
      CountRepeated(c, n - 1);
    }
  }

  /** 65536 times one character, each to be replaced by 65537 others: the growth is exactly 2^32, the
      buffer gets no byte for it, and the copying runs out of it. */
  lemma SizeWraps(rep: string)
    requires |rep| == 65537 && 'a' !in rep
    ensures var org := seq(65536, i => 'a');
            && Result(org, "a", rep, false, true) == Overrun
            && |Replace(org, "a", rep)| - |Tail(org, "a")| >= Size(|org|, 1, |rep|, Count(org, "a"))
  {
    var org := seq(65536, i => 'a');
    CountRepeated('a', 65536);
    NoneIn(rep, 'a');
    LastWriteInside(org, "a", rep);
    assert org[1] == 'a' && |org| > 1;
    hide Count, Replace, Size, Tail, Written, Pieces;
  }
}
