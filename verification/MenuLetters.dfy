/** The letters of a menu: what the second pass gives to each line, and how it ends. */
module MenuLetters {
  import opened Helpers
  import opened MenuLines

  /** The search for a letter stops at `c`: it is no space, and free or not in the table of letters. */
  predicate Stops(lines: seq<Line>, c: char) {
    c != ' ' && (c as int >= 127 || !Taken(lines, c))
  }

  /** `p` is the first place behind the frame where `c` stands. */
  predicate FirstAt(text: string, c: char, p: nat) {
    5 <= p < |text| && text[p] == c && forall k :: 5 <= k < p ==> text[k] != c
  }

  predicate Absent(text: string, c: char) {
    forall k :: 5 <= k < |text| ==> text[k] != c
  }

  /** `p` is the first place behind the frame where the search stops. */
  predicate FirstStop(lines: seq<Line>, text: string, p: nat) {
    5 <= p < |text| && Stops(lines, text[p]) && forall k :: 5 <= k < p ==> !Stops(lines, text[k])
  }

  predicate NoStop(lines: seq<Line>, text: string) {
    forall k :: 5 <= k < |text| ==> !Stops(lines, text[k])
  }

  /** `c` is the first free letter from '0' on. */
  predicate FirstFree(lines: seq<Line>, c: char) {
    '0' <= c && c as int < 127 && !Taken(lines, c) && forall d: char :: '0' <= d < c ==> Taken(lines, d)
  }

  /** The letter and its place that line `i` gets, when the lines are as in `lines`: the one reserved;
      or the first of its own text; or the first of all. */
  predicate Gets(lines: seq<Line>, i: nat, c: char, p: nat)
    requires i < |lines|
  {
    var text := lines[i].choiceText;
    if lines[i].choiceLetter != '\0' then
      c == lines[i].choiceLetter && (FirstAt(text, c, p) || (Absent(text, c) && p == 1))
    else
      || (FirstStop(lines, text, p) && c == text[p] && c as int < 127)
      || (NoStop(lines, text) && FirstFree(lines, c) && p == 1)
  }

  predicate Allotted(lines: seq<Line>, i: nat, now: Line)
    requires i < |lines|
  {
    && lines[i].kind == Choice && |lines[i].choiceText| >= 5 && Gets(lines, i, now.choiceLetter, now.letterPos)
    && now == lines[i].(choiceLetter := now.choiceLetter, letterPos := now.letterPos,
                        choiceText := lines[i].choiceText[1 := now.choiceLetter])
  }

  /** A letter still to be had: in the table, not 'q', and no line's. */
  ghost predicate Unused(lines: seq<Line>, c: char) {
    32 <= c as int < 127 && c != 'q' && forall j :: 0 <= j < |lines| ==> lines[j].choiceLetter != c
  }

  /** What a turn gives line `i` as its letter, and the place where it is shown. A letter reserved stays, and
      is shown at its first place in the text; otherwise the first letter of the text that is no space and
      still to be had; otherwise the first of all from '0' on. A letter that the text does not have is
      shown in front of it. */
  ghost predicate TurnGives(lines: seq<Line>, i: nat, now: Line)
    requires i < |lines|
  {
    var text, c, p := lines[i].choiceText, now.choiceLetter, now.letterPos;
    && 5 <= |text| == |now.choiceText| && now.choiceText[1] == c
    && (forall k :: 0 <= k < |text| && k != 1 ==> now.choiceText[k] == text[k])
    && if lines[i].choiceLetter != '\0' then
         && c == lines[i].choiceLetter
         && if p == 1 then forall k :: 5 <= k < |text| ==> text[k] != c
            else 5 <= p < |text| && text[p] == c && forall k :: 5 <= k < p ==> text[k] != c
       else if p == 1 then
         && (forall k :: 5 <= k < |text| ==> text[k] == ' ' || !Unused(lines, text[k]))
         && '0' <= c && Unused(lines, c) && forall d: char :: '0' <= d < c ==> !Unused(lines, d)
       else
         && 5 <= p < |text| && text[p] == c != ' ' && Unused(lines, c)
         && forall k :: 5 <= k < p ==> text[k] == ' ' || !Unused(lines, text[k])
  }

  lemma UnusedFree(lines: seq<Line>, c: char)
    ensures Unused(lines, c) <==> c as int < 127 && !Taken(lines, c)
  {
  }

  lemma AllottedGives(lines: seq<Line>, i: nat, now: Line)
    requires i < |lines| && Allotted(lines, i, now)
    ensures TurnGives(lines, i, now)
  {
    forall c: char {
      UnusedFree(lines, c);
    }
    hide Taken, Unused;
  }

  /** The lines before the pass and after it, as they are when it comes to line `i`. */
  function Halfway(before: seq<Line>, after: seq<Line>, i: nat): seq<Line>
    requires i <= |before| == |after|
  {
    after[..i] + before[i..]
  }

  predicate AllAllotted(before: seq<Line>, after: seq<Line>, n: nat)
    requires n <= |before| == |after|
  {
    forall i: nat :: i < n ==> Allotted(Halfway(before, after, i), i, after[i])
  }

  /** No two lines share a letter. */
  predicate Distinct(lines: seq<Line>) {
    forall j, k :: 0 <= j < k < |lines| && lines[j].choiceLetter != '\0' ==>
      lines[j].choiceLetter != lines[k].choiceLetter
  }

  /** A line with a key that can be typed, shown at the place recorded for it. */
  predicate Lettered(line: Line) {
    && 32 <= line.choiceLetter as int < 127 && line.choiceLetter != 'q'
    && 1 < |line.choiceText| && line.letterPos < |line.choiceText|
    && line.choiceText[line.letterPos] == line.choiceLetter == line.choiceText[1]
  }

  ghost predicate AllChoices(lines: seq<Line>) {
    forall k :: 0 <= k < |lines| ==> lines[k].kind == Choice
  }

  /** A line with a text to look for letters in. */
  ghost predicate Lookable(line: Line) {
    line.kind == Choice && |line.choiceText| >= 5 && line.choiceLetter as int < 127
  }

  lemma LineFrame(lines: seq<Line>, i: nat)
    requires AllRead(lines) && i < |lines| && lines[i].kind == Choice
    ensures Lookable(lines[i])
    ensures lines[i].choiceLetter != '\0' ==>
              32 <= lines[i].choiceLetter as int && !Taken(lines[..i], lines[i].choiceLetter)
  {
    assert ReadLine(lines, i);
  }

  /** The letters reserved in the first pass differ. */
  lemma ReservedDistinct(lines: seq<Line>)
    requires AllRead(lines)
    ensures Distinct(lines)
  {
    forall j, k | 0 <= j < k < |lines| && lines[j].choiceLetter != '\0'
      ensures lines[j].choiceLetter != lines[k].choiceLetter
    {
      if lines[k].kind == Choice {
        LineFrame(lines, k);
        assert lines[..k][j] == lines[j];
      } else {
        assert ReadLine(lines, k);
      }
    }
  }

  /** A letter given is no other line's. */
  lemma GivenFree(lines: seq<Line>, i: nat, now: Line)
    requires i < |lines| && Allotted(lines, i, now)
    requires lines[i].choiceLetter != '\0' ==> 32 <= lines[i].choiceLetter as int && lines[i].choiceLetter != 'q'
    requires Lookable(lines[i])
    ensures Lettered(now)
    ensures lines[i].choiceLetter == '\0' ==> !Taken(lines, now.choiceLetter)
  {
  }

  lemma DistinctStep(lines: seq<Line>, i: nat, now: Line)
    requires i < |lines| && Distinct(lines) && now.choiceLetter != '\0'
    requires if lines[i].choiceLetter == '\0' then !Taken(lines, now.choiceLetter)
             else now.choiceLetter == lines[i].choiceLetter
    ensures Distinct(lines[i := now])
  {
  }

  /** Every line ends with a key of its own, never 'q', shown where it is said to be. */
  lemma {:induction false} HotKeys(before: seq<Line>, after: seq<Line>, n: nat)
    requires AllRead(before) && AllChoices(before) && n <= |before| == |after| && AllAllotted(before, after, n)
    ensures Distinct(Halfway(before, after, n))
    ensures forall k :: 0 <= k < n ==> Lettered(after[k])
  {
    if n == 0 {
      ReservedDistinct(before);
      assert Halfway(before, after, 0) == before;
    } else {
      var i := n - 1;
      var lines := Halfway(before, after, i);
      HotKeys(before, after, i);
      assert Allotted(lines, i, after[i]) && lines[i] == before[i];
      LineFrame(before, i);
      hide AllAllotted, Allotted, Distinct, Lettered, AllRead, Taken;
      QFree(before, i);
      GivenFree(lines, i, after[i]);
      LetteredTypes(after[i]);
      KeepsReserved(lines, i, after[i]);
      DistinctStep(lines, i, after[i]);
      assert lines[i := after[i]] == Halfway(before, after, n);
    }
  }

  lemma QFree(lines: seq<Line>, i: nat)
    requires i < |lines| && (lines[i].choiceLetter != '\0' ==> !Taken(lines[..i], lines[i].choiceLetter))
    ensures lines[i].choiceLetter != 'q'
  {
  }

  lemma LetteredTypes(line: Line)
    requires Lettered(line)
    ensures line.choiceLetter != '\0'
  {
  }

  lemma KeepsReserved(lines: seq<Line>, i: nat, now: Line)
    requires i < |lines| && Allotted(lines, i, now)
    ensures lines[i].choiceLetter != '\0' ==> now.choiceLetter == lines[i].choiceLetter
    ensures now.kind == lines[i].kind && EntryOf(now) == EntryOf(lines[i])
  {
  }

  /** The marks after a letter has been given. */
  lemma MarksGiven(fltr: seq<bool>, lines: seq<Line>, i: nat, now: Line)
    requires i < |lines| && Marks(fltr, lines) && now.choiceLetter as int < 127
    requires lines[i].choiceLetter == '\0' || lines[i].choiceLetter == now.choiceLetter
    ensures Marks(fltr[now.choiceLetter as int := true], lines[i := now])
  {
    var lines' := lines[i := now];
    assert lines'[i].choiceLetter == now.choiceLetter;
    forall c: char | c as int < 127
      ensures Taken(lines', c) <==> Taken(lines, c) || c == now.choiceLetter
    {
      if j :| 0 <= j < |lines| && lines[j].choiceLetter == c && c != '\0' {
        assert lines'[j].choiceLetter == c;
      }
      if j :| 0 <= j < |lines| && lines'[j].choiceLetter == c && c != now.choiceLetter {
        assert lines[j].choiceLetter == c;
      }
    }
  }

  lemma Marked(fltr: seq<bool>, lines: seq<Line>)
    requires Marks(fltr, lines)
    ensures |fltr| == 127 && forall c: char :: c as int < 127 ==> (fltr[c as int] <==> Taken(lines, c))
  {
  }

  lemma AllottedNone(before: seq<Line>)
    ensures AllAllotted(before, before, 0) && Halfway(before, before, 0) == before
  {
  }

  lemma HalfwayAt(before: seq<Line>, lines: seq<Line>, i: nat)
    requires i < |before| == |lines| && lines == Halfway(before, lines, i)
    ensures lines[i] == before[i]
  {
  }

  /** Line `i` alone has changed, as its turn says. */
  ghost predicate TurnTaken(lines: seq<Line>, after: seq<Line>, i: nat) {
    i < |lines| == |after| && after == lines[i := after[i]] && Allotted(lines, i, after[i])
  }

  lemma AllottedStep(before: seq<Line>, lines: seq<Line>, after: seq<Line>, i: nat)
    requires |before| == |lines| && i < |lines| && lines == Halfway(before, lines, i)
    requires AllAllotted(before, lines, i) && TurnTaken(lines, after, i)
    ensures |after| == |before|
    ensures AllAllotted(before, after, i + 1) && after == Halfway(before, after, i + 1)
  {
    forall k: nat | k <= i ensures Allotted(Halfway(before, after, k), k, after[k]) {
      assert Halfway(before, after, k) == Halfway(before, lines, k);
      assert k < i ==> Allotted(Halfway(before, lines, k), k, lines[k]);
    }
  }

  // ------------------------------------------------------------------ running out

  function Letters(lines: seq<Line>): (r: set<char>)
    ensures |r| <= |lines|
    ensures forall j :: 0 <= j < |lines| ==> lines[j].choiceLetter in r
  {
    if lines == [] then {} else
      var n := |lines| - 1;
      var r := Letters(lines[..n]);
      assert forall j :: 0 <= j < n ==> lines[..n][j] == lines[j];
      r + {lines[n].choiceLetter}
  }

  /** The characters with codes from `lo` on below `hi`. */
  function Codes(lo: nat, hi: nat): (r: set<char>)
    requires lo <= hi <= 127
    ensures |r| == hi - lo && forall c: char :: c in r <==> lo <= c as int < hi
  {
    if hi == lo then {} else Codes(lo, hi - 1) + {(hi - 1) as char}
  }

  /** No letter is left for line `i`. */
  predicate RunOut(lines: seq<Line>, i: nat) {
    && i < |lines| && lines[i].choiceLetter == '\0'
    && forall c: char :: 48 <= c as int < 127 ==> Taken(lines, c)
  }

  lemma OtherLetter(lines: seq<Line>, i: nat, j: nat)
    requires i < |lines| && j < |lines| && i != j
    ensures lines[j].choiceLetter in Letters(lines[..i] + lines[i + 1..])
  {
    var others := lines[..i] + lines[i + 1..];
    assert others[if j < i then j else j - 1] == lines[j];
  }

  lemma HolderElsewhere(lines: seq<Line>, i: nat, c: char)
    requires i < |lines| && lines[i].choiceLetter == '\0' && Taken(lines, c) && 32 <= c as int && c != 'q'
    ensures c in Letters(lines[..i] + lines[i + 1..])
  {
    var j: nat :| j < |lines| && lines[j].choiceLetter == c;
    OtherLetter(lines, i, j);
  }

  /** There are 78 letters, so letters run out on 79 lines or more only. */
  lemma RunsOutLate(lines: seq<Line>, i: nat)
    requires RunOut(lines, i)
    ensures |lines| > 78
  {
    var others := lines[..i] + lines[i + 1..];
    var all := Codes(48, 127);
    assert all == all - {'q'} + {'q'};
    forall c | c in all - {'q'} ensures c in Letters(others) {
      HolderElsewhere(lines, i, c);
    }
    hide *;
    SubsetSize(all - {'q'}, Letters(others));
  }

  lemma {:induction false} LetterHeld(lines: seq<Line>, c: char) returns (k: nat)
    requires c in Letters(lines)
    ensures k < |lines| && lines[k].choiceLetter == c
  {
    var n := |lines| - 1;
    if c in Letters(lines[..n]) {
      k := LetterHeld(lines[..n], c);
    } else {
      k := n;
    }
  }

  lemma LettersLast(lines: seq<Line>)
    requires lines != []
    ensures var n := |lines| - 1; Letters(lines) == Letters(lines[..n]) + {lines[n].choiceLetter}
  {
  }

  /** Letters that differ are as many as the lines. */
  lemma {:induction false} LettersDistinct(lines: seq<Line>)
    requires Distinct(lines) && AllLettered(lines)
    ensures |Letters(lines)| == |lines|
  {
    if lines != [] {
      var n := |lines| - 1;
      var before := lines[..n];
      LettersLast(lines);
      DistinctFront(lines, n);
      hide Letters, Lettered;
      LettersDistinct(before);
      var c := lines[n].choiceLetter;
      assert forall k :: 0 <= k < n ==> before[k] == lines[k];
      if c in Letters(before) {
        var k := LetterHeld(before, c);
        LetteredTypes(before[k]);
      }
      assert |Letters(before) + {c}| == |Letters(before)| + 1;
    }
  }

  ghost predicate AllLettered(lines: seq<Line>) {
    forall k :: 0 <= k < |lines| ==> Lettered(lines[k])
  }

  lemma DistinctFront(lines: seq<Line>, n: nat)
    requires n <= |lines| && Distinct(lines) && AllLettered(lines)
    ensures Distinct(lines[..n]) && AllLettered(lines[..n])
  {
    assert forall k :: 0 <= k < n ==> lines[..n][k] == lines[k];
    hide Lettered;
  }

  lemma LetterInTable(lines: seq<Line>, c: char)
    requires AllLettered(lines) && c in Letters(lines)
    ensures c in Codes(32, 127) - {'q'}
  {
    hide Letters;
    var k := LetterHeld(lines, c);
    assert Lettered(lines[k]);
  }

  lemma TableSize()
    ensures |Codes(32, 127) - {'q'}| == 94
  {
    var all := Codes(32, 127);
    hide Codes;
    assert all == all - {'q'} + {'q'};
  }

  /** A menu with a letter for every line has 94 lines at most. */
  lemma LettersBound(lines: seq<Line>)
    requires Distinct(lines) && AllLettered(lines)
    ensures |lines| <= 94
  {
    hide *;
    LettersDistinct(lines);
    TableSize();
    forall c | c in Letters(lines) ensures c in Codes(32, 127) - {'q'} {
      LetterInTable(lines, c);
    }
    SubsetSize(Letters(lines), Codes(32, 127) - {'q'});
  }

  /** The search for a free letter starts at '0', though marks from '!' on would do as well: it finds the
      first of all of them exactly when those in front of '0' are taken. */
  lemma FirstFreeOfAll(lines: seq<Line>, c: char)
    requires FirstFree(lines, c)
    ensures (forall d: char :: '!' <= d < c ==> Taken(lines, d)) <==>
            (forall d: char :: '!' <= d < '0' ==> Taken(lines, d))
  {
    hide Taken;
  }

  // ------------------------------------------------------------------ how the second pass ends

  /** How parsing ends: given up, out of letters, reading where there is nothing to read, or well. */
  datatype Outcome = Abended | OutOfLetters | Faulted | Parsed

  /** A choice that has no letter of its own to get, when no other is left. */
  ghost predicate Stuck(lines: seq<Line>, i: nat) {
    RunOut(lines, i) && lines[i].kind == Choice && NoStop(lines, lines[i].choiceText)
  }

  /** A line without a command, which has no text to look for a letter in; or a text whose first letter
      to be considered is not in the table. */
  ghost predicate Faulting(lines: seq<Line>, i: nat) {
    && i < |lines|
    && (|| lines[i].kind == Text
        || (lines[i].choiceLetter == '\0'
            && exists p: nat :: FirstStop(lines, lines[i].choiceText, p) && lines[i].choiceText[p] as int >= 127))
  }

  /** What happens at the turn of line `n`. */
  ghost predicate EndsAt(lines: seq<Line>, n: nat, outcome: Outcome) {
    match outcome
    case Parsed => n == |lines|
    case OutOfLetters => Stuck(lines, n)
    case Faulted => Faulting(lines, n)
    case Abended => false
  }

  ghost predicate EndsBy(before: seq<Line>, after: seq<Line>, n: nat, outcome: Outcome) {
    && n <= |before| == |after| && AllAllotted(before, after, n)
    && EndsAt(Halfway(before, after, n), n, outcome)
  }

  /** The second pass over `before` gets to a turn that ends it in this way. */
  ghost predicate Ends(before: seq<Line>, outcome: Outcome) {
    exists after: seq<Line>, n: nat :: EndsBy(before, after, n, outcome)
  }

  lemma GetsOne(lines: seq<Line>, i: nat, c: char, p: nat, d: char, q: nat)
    requires i < |lines| && Gets(lines, i, c, p) && Gets(lines, i, d, q)
    ensures c == d && p == q
  {
    hide Stops, Taken;
  }

  /** What a line gets is determined by the lines. */
  lemma AllottedOne(lines: seq<Line>, i: nat, a: Line, b: Line)
    requires i < |lines| && Allotted(lines, i, a) && Allotted(lines, i, b)
    ensures a == b
  {
    hide Gets;
    GetsOne(lines, i, a.choiceLetter, a.letterPos, b.choiceLetter, b.letterPos);
  }

  /** Two runs of the pass from the same lines agree as far as they go. */
  lemma {:induction false} AllottedUnique(before: seq<Line>, a: seq<Line>, b: seq<Line>, n: nat)
    requires n <= |before| == |a| == |b| && AllAllotted(before, a, n) && AllAllotted(before, b, n)
    ensures Halfway(before, a, n) == Halfway(before, b, n) && a[..n] == b[..n]
  {
    if n > 0 {
      var i := n - 1;
      assert Allotted(Halfway(before, a, i), i, a[i]) && Allotted(Halfway(before, b, i), i, b[i]);
      AllottedUnique(before, a, b, i);
      hide Allotted, AllAllotted;
      AllottedOne(Halfway(before, a, i), i, a[i], b[i]);
      assert a[..n] == a[..i] + [a[i]] && b[..n] == b[..i] + [b[i]];
    }
  }

  /** A line that gets a letter neither runs out of letters nor faults; nor does a line do both. */
  lemma TurnsApart(lines: seq<Line>, i: nat)
    requires i < |lines|
    ensures !(Stuck(lines, i) && Faulting(lines, i))
    ensures forall now :: Allotted(lines, i, now) ==> !Stuck(lines, i) && !Faulting(lines, i)
  {
    hide Stops, Taken;
    forall now | Allotted(lines, i, now) ensures !Stuck(lines, i) && !Faulting(lines, i) {
      assert RunOut(lines, i) ==> !FirstFree(lines, now.choiceLetter);
    }
  }

  /** No run of the pass goes past the turn at which another one ends. */
  lemma EndsEarlier(before: seq<Line>, a: seq<Line>, n: nat, o: Outcome, b: seq<Line>, m: nat)
    requires EndsBy(before, a, n, o) && m <= |before| == |b| && AllAllotted(before, b, m)
    ensures m <= n
  {
    if n < m {
      AllottedFront(before, b, m, n);
      AllottedUnique(before, a, b, n);
      TurnsApart(Halfway(before, a, n), n);
      hide Allotted, AllAllotted, Stuck, Faulting;
    }
  }

  lemma AllottedFront(before: seq<Line>, b: seq<Line>, m: nat, n: nat)
    requires n < m <= |before| == |b| && AllAllotted(before, b, m)
    ensures AllAllotted(before, b, n) && Allotted(Halfway(before, b, n), n, b[n])
  {
  }

  /** The second pass over given lines ends in one way only. */
  lemma EndsUnique(before: seq<Line>, o: Outcome, o': Outcome)
    requires Ends(before, o) && Ends(before, o')
    ensures o == o'
  {
    var a: seq<Line>, n: nat :| EndsBy(before, a, n, o);
    var b: seq<Line>, m: nat :| EndsBy(before, b, m, o');
    EndsEarlier(before, a, n, o, b, m);
    EndsEarlier(before, b, m, o', a, n);
    AllottedUnique(before, a, b, n);
    if n < |before| {
      TurnsApart(Halfway(before, a, n), n);
    }
    hide AllAllotted, Stuck, Faulting;
  }

  /** All characters in the table of letters. */
  predicate Typable(text: string) {
    forall i :: 0 <= i < |text| ==> text[i] as int < 127
  }

  lemma ShownFrame(raw: string)
    requires Typable(raw)
    ensures forall k :: 5 <= k < |Shown(raw)| ==> Shown(raw)[k] as int < 127
  {
    var shown, from := Shown(raw), if Designates(raw) && |raw| > 1 then 2 else 0;
    forall k | 5 <= k < |shown| ensures shown[k] as int < 127 {
      assert shown[k] == raw[from..][k - 5] == raw[from + k - 5];
    }
  }

  /** With every choice commanded and every character in the table, the pass never faults. */
  lemma NeverFaults(before: seq<Line>)
    requires AllRead(before) && AllChoices(before)
    requires forall k :: 0 <= k < |before| ==> Typable(before[k].rawText)
    ensures !Ends(before, Faulted)
  {
    if Ends(before, Faulted) {
      var after: seq<Line>, n: nat :| EndsBy(before, after, n, Faulted);
      assert n < |before| && Halfway(before, after, n)[n] == before[n];
      assert ReadLine(before, n);
      ShownFrame(before[n].rawText);
      hide AllAllotted, Shown, Stops, Taken;
    }
  }

  /** With 78 lines at most, letters never run out. */
  lemma NeverRunsOut(before: seq<Line>)
    requires |before| <= 78
    ensures !Ends(before, OutOfLetters)
  {
    if Ends(before, OutOfLetters) {
      var after: seq<Line>, n: nat :| EndsBy(before, after, n, OutOfLetters);
      hide AllAllotted, NoStop, RunOut;
      RunsOutLate(Halfway(before, after, n), n);
    }
  }
}
