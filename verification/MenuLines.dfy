/** The menu description: what its lines mean, and the menu lines that the first pass makes of them. */
module MenuLines {
  import opened Helpers

  const MAXLEN := 256

  /** A line of the description: its first character, and the rest of it trimmed. */
  datatype Source = Source(directive: char, text: string)

  datatype Kind = Text | Choice

  datatype Line = Line(kind: Kind, rawText: string, command: string,
                       choiceText: string, choiceLetter: char, letterPos: nat)

  // ------------------------------------------------------------------ the description's grammar

  /** A choice and the command that follows it. */
  datatype Entry = Entry(text: string, command: Option<string>)

  predicate Significant(s: Source) {
    s.text != "" && (s.directive == ':' || s.directive == '!')
  }

  function Meaningful(input: seq<Source>): seq<Source> {
    if input == [] then []
    else (if Significant(input[0]) then [input[0]] else []) + Meaningful(input[1..])
  }

  /** The first ':' line is the title; what stands before it says nothing. */
  function AfterTitle(s: seq<Source>): seq<Source> {
    if s == [] then [] else if s[0].directive == ':' then s[1..] else AfterTitle(s[1..])
  }

  function Title(s: seq<Source>): string {
    if s == [] then "" else if s[0].directive == ':' then s[0].text else Title(s[1..])
  }

  /** What a description comes to: given up, stopped where it cannot be read, or a list of entries. */
  datatype Meant = GivenUp | Unreadable | Means(entries: seq<Entry>)

  function Prefixed(front: seq<Entry>, rest: Meant): Meant {
    if rest.Means? then Means(front + rest.entries) else rest
  }

  predicate Designates(raw: string) {
    raw != "" && (raw[0] == '-' || raw[0] == '_')
  }

  /** A designator with nothing behind it: the parser goes on reading past the end of the text. */
  predicate Bare(raw: string) {
    Designates(raw) && |raw| == 1
  }

  /** Every ':' line but the last must be followed by its '!' line; further '!' lines say nothing. */
  function Entries(s: seq<Source>): Meant {
    if s == [] then Means([])
    else if s[0].directive != ':' then Entries(s[1..])
    else if |s| == 1 then Means([Entry(s[0].text, None)])
    else if s[1].directive == ':' then GivenUp
    else if Bare(s[0].text) then Unreadable
    else Prefixed([Entry(s[0].text, Some(s[1].text))], Entries(s[2..]))
  }

  function Meaning(input: seq<Source>): Meant {
    Entries(AfterTitle(Meaningful(input)))
  }

  // ------------------------------------------------------------------ letters

  function Clip(s: string): string {
    if |s| < MAXLEN then s else s[..MAXLEN - 1]
  }

  /** The text shown: without the designator and the designated letter. */
  function Shown(raw: string): string {
    Clip(" x - " + if Designates(raw) && |raw| > 1 then raw[2..] else raw)
  }

  /** Letters that are not to be given: control characters, 'q', and those that lines have. */
  predicate Taken(lines: seq<Line>, c: char) {
    c as int < 32 || c == 'q' || exists j :: 0 <= j < |lines| && lines[j].choiceLetter == c
  }

  /** The letter a line reserves when it is read. */
  function Reserved(lines: seq<Line>, raw: string): char {
    if Designates(raw) && |raw| > 1 && raw[1] as int < 127 && !Taken(lines, raw[1]) then raw[1] else '\0'
  }

  function EntryOf(line: Line): Entry {
    Entry(line.rawText, if line.kind == Choice then Some(line.command) else None)
  }

  function EntriesOf(lines: seq<Line>): seq<Entry> {
    seq(|lines|, i requires 0 <= i < |lines| => EntryOf(lines[i]))
  }

  /** The line of an entry, behind the lines of the entries before it. */
  function LineOf(before: seq<Line>, e: Entry): Line {
    if e.command.None? then Line(Text, e.text, "", "", '\0', 0)
    else Line(Choice, e.text, e.command.value, Shown(e.text), Reserved(before, e.text), 0)
  }

  /** The lines of a description's entries, as the first pass leaves them. */
  function LinesOf(entries: seq<Entry>): seq<Line> {
    if entries == [] then []
    else
      var n := |entries| - 1;
      var before := LinesOf(entries[..n]);
      before + [LineOf(before, entries[n])]
  }

  predicate ReadLine(lines: seq<Line>, k: nat)
    requires k < |lines|
  {
    lines[k] == LineOf(lines[..k], EntryOf(lines[k]))
  }

  predicate AllRead(lines: seq<Line>) {
    forall k: nat :: k < |lines| ==> ReadLine(lines, k)
  }

  lemma {:induction false} ReadIs(lines: seq<Line>)
    requires AllRead(lines)
    ensures LinesOf(EntriesOf(lines)) == lines
  {
    if lines != [] {
      var n := |lines| - 1;
      var before := lines[..n];
      ReadFront(lines, n);
      ReadIs(before);
      assert ReadLine(lines, n);
      assert EntriesOf(lines)[..n] == EntriesOf(before);
      assert lines == before + [lines[n]];
    }
  }

  /** The letters taken are exactly those marked. */
  ghost predicate Marks(fltr: seq<bool>, lines: seq<Line>) {
    |fltr| == 127 && forall c: char :: c as int < 127 ==> (fltr[c as int] <==> Taken(lines, c))
  }

  // ------------------------------------------------------------------ the grammar, place by place

  /** What is left of a description are its ':' and '!' lines that have a text, in their order. */
  lemma {:induction false} MeaningfulPicks(input: seq<Source>) returns (at: seq<nat>)
    ensures Picks(input, at, Meaningful(input))
    ensures forall i: nat :: i in at <==>
              i < |input| && input[i].text != "" && (input[i].directive == ':' || input[i].directive == '!')
  {
    if input == [] {
      at := [];
    } else {
      var head := Significant(input[0]);
      var rest := MeaningfulPicks(input[1..]);
      at := if head then [0] + OneOn(rest) else OneOn(rest);
      PicksOn(input, rest, Meaningful(input[1..]), head);
      MeaningfulUnfold(input);
      hide Meaningful, Picks, OneOn;
      forall i: nat ensures i in at <==> i < |input| && Significant(input[i]) {
        InPicksOn(rest, head, i);
      }
    }
  }

  lemma MeaningfulUnfold(input: seq<Source>)
    requires input != []
    ensures Meaningful(input) ==
            if Significant(input[0]) then [input[0]] + Meaningful(input[1..]) else Meaningful(input[1..])
  {
  }

  /** The title is the first ':' line, and the entries come from what follows it. */
  lemma {:induction false} TitleFirst(s: seq<Source>, i: nat)
    requires i <= |s| && forall j :: 0 <= j < i ==> s[j].directive != ':'
    requires i < |s| ==> s[i].directive == ':'
    ensures i < |s| ==> Title(s) == s[i].text && AfterTitle(s) == s[i + 1..]
    ensures i == |s| ==> Title(s) == "" && AfterTitle(s) == []
  {
    if i > 0 {
      TitleFirst(s[1..], i - 1);
    }
  }

  /** A choice that no command follows, but another choice. */
  ghost predicate Unanswered(s: seq<Source>, i: nat) {
    i + 1 < |s| && s[i].directive == ':' && s[i + 1].directive == ':'
  }

  /** A command for a choice with nothing behind its designator. */
  ghost predicate Barren(s: seq<Source>, i: nat) {
    i + 1 < |s| && s[i].directive == ':' && s[i + 1].directive != ':' && (s[i].text == "-" || s[i].text == "_")
  }

  ghost predicate FirstTrouble(s: seq<Source>, i: nat) {
    && (Unanswered(s, i) || Barren(s, i))
    && forall j: nat :: j < i ==> !Unanswered(s, j) && !Barren(s, j)
  }

  lemma TroubleLater(s: seq<Source>, i: nat)
    requires s != [] && !Unanswered(s, 0) && !Barren(s, 0)
    ensures FirstTrouble(s, i) <==> i > 0 && FirstTrouble(s[1..], i - 1)
  {
    assert forall j: nat ::
      (Unanswered(s[1..], j) <==> Unanswered(s, j + 1)) && (Barren(s[1..], j) <==> Barren(s, j + 1));
    if i > 0 && FirstTrouble(s[1..], i - 1) {
      forall j: nat | j < i ensures !Unanswered(s, j) && !Barren(s, j) {
        assert j > 0 ==> !Unanswered(s[1..], j - 1) && !Barren(s[1..], j - 1);
      }
    }
  }

  /** Where a description's first trouble is, and of which kind, says whether it is given up or cannot
      be read. */
  lemma {:induction false} EntriesTrouble(s: seq<Source>, i: nat)
    requires FirstTrouble(s, i)
    ensures Entries(s) == if Unanswered(s, i) then GivenUp else Unreadable
    decreases |s|
  {
    if i > 0 {
      assert !Unanswered(s, 0) && !Barren(s, 0);
      TroubleLater(s, i);
      if s[0].directive != ':' {
        EntriesTrouble(s[1..], i - 1);
      } else {
        TroubleLater(s[1..], i - 1);
        assert s[1..][1..] == s[2..];
        EntriesTrouble(s[2..], i - 2);
      }
    }
  }

  /** The positions of the ':' lines, in their order. */
  ghost predicate ChoicesAt(s: seq<Source>, at: seq<nat>) {
    && (forall j, k :: 0 <= j < k < |at| ==> at[j] < at[k])
    && forall i: nat :: i in at <==> i < |s| && s[i].directive == ':'
  }

  /** Each entry is a line with the text of the line behind it. */
  ghost predicate Answered(s: seq<Source>, at: seq<nat>, entries: seq<Entry>) {
    |at| == |entries| && forall k :: 0 <= k < |at| ==> at[k] < |s| && entries[k] == EntryAt(s, at[k])
  }

  ghost function EntryAt(s: seq<Source>, i: nat): Entry
    requires i < |s|
  {
    Entry(s[i].text, if i + 1 < |s| then Some(s[i + 1].text) else None)
  }

  lemma ChoicesOn(s: seq<Source>, rest: seq<nat>)
    requires s != [] && ChoicesAt(s[1..], rest)
    ensures ChoicesAt(s, if s[0].directive == ':' then [0] + OneOn(rest) else OneOn(rest))
  {
    var head := s[0].directive == ':';
    var at := if head then [0] + OneOn(rest) else OneOn(rest);
    forall i: nat ensures i in at <==> i < |s| && s[i].directive == ':' {
      InPicksOn(rest, head, i);
    }
    hide OneOn;
  }

  lemma AnsweredTail(s: seq<Source>, rest: seq<nat>, entries: seq<Entry>)
    requires s != [] && Answered(s[1..], rest, entries)
    ensures Answered(s, OneOn(rest), entries)
  {
    forall k | 0 <= k < |rest| ensures rest[k] + 1 < |s| && entries[k] == EntryAt(s, rest[k] + 1) {
      assert EntryAt(s[1..], rest[k]) == EntryAt(s, rest[k] + 1);
    }
    hide EntryAt;
  }

  lemma AnsweredHead(s: seq<Source>, next: seq<nat>, entries: seq<Entry>)
    requires s != [] && Answered(s, next, entries)
    ensures Answered(s, [0] + next, [EntryAt(s, 0)] + entries)
  {
    hide EntryAt;
  }

  /** Without trouble, a description means its ':' lines in their order, each with the line behind it. */
  lemma {:induction false} EntriesInOrder(s: seq<Source>) returns (at: seq<nat>)
    requires forall i: nat :: !Unanswered(s, i) && !Barren(s, i)
    ensures Entries(s).Means? && ChoicesAt(s, at) && Answered(s, at, Entries(s).entries)
    decreases |s|
  {
    if s == [] {
      at := [];
    } else if s[0].directive != ':' {
      NoTroubleLater(s);
      at := EntriesInOrder(s[1..]);
      ChoicesOn(s, at);
      AnsweredTail(s, at, Entries(s[1..]).entries);
      at := OneOn(at);
    } else if |s| == 1 {
      at := [0];
    } else {
      assert !Unanswered(s, 0) && !Barren(s, 0);
      NoTroubleLater(s);
      NoTroubleLater(s[1..]);
      assert s[1..][1..] == s[2..];
      at := EntriesInOrder(s[2..]);
      hide Answered, ChoicesAt;
      ChoicesOn(s[1..], at);
      AnsweredTail(s[1..], at, Entries(s[2..]).entries);
      at := OneOn(at);
      ChoicesOn(s, at);
      AnsweredTail(s, at, Entries(s[2..]).entries);
      AnsweredHead(s, OneOn(at), Entries(s[2..]).entries);
      at := [0] + OneOn(at);
    }
  }

  lemma NoTroubleLater(s: seq<Source>)
    requires s != [] && forall i: nat :: !Unanswered(s, i) && !Barren(s, i)
    ensures forall i: nat :: !Unanswered(s[1..], i) && !Barren(s[1..], i)
  {
    forall i: nat ensures !Unanswered(s[1..], i) && !Barren(s[1..], i) {
      assert !Unanswered(s, i + 1) && !Barren(s, i + 1);
    }
  }

  /** A text is shown behind " x - " from its character `from` on, as far as 255 characters go. */
  ghost predicate ShownFrom(shown: string, raw: string, from: nat)
    requires from <= |raw|
  {
    && |shown| == (if 5 + |raw| - from < 255 then 5 + |raw| - from else 255)
    && forall k :: 0 <= k < |shown| ==> shown[k] == if k < 5 then " x - "[k] else raw[from + k - 5]
  }

  /** A choice as it is read behind the lines `before`: with '-' or '_' in front of its text the second
      character is its letter, if that is a letter and free, and neither is shown. */
  ghost predicate ReadAs(before: seq<Line>, raw: string, command: string, line: Line)
    requires |raw| > 1 || (|raw| == 1 && raw[0] != '-' && raw[0] != '_')
  {
    && line.kind == Choice && line.rawText == raw && line.command == command
    && if raw[0] == '-' || raw[0] == '_' then
         && ShownFrom(line.choiceText, raw, 2)
         && line.choiceLetter == (if 32 <= raw[1] as int < 127 && raw[1] != 'q'
                                     && (forall j :: 0 <= j < |before| ==> before[j].choiceLetter != raw[1])
                                  then raw[1] else '\0')
       else
         ShownFrom(line.choiceText, raw, 0) && line.choiceLetter == '\0'
  }

  lemma LineIs(before: seq<Line>, e: Entry)
    requires e.command.Some? && e.text != "" && !Bare(e.text)
    ensures ReadAs(before, e.text, e.command.value, LineOf(before, e))
  {
    var from := if Designates(e.text) then 2 else 0;
    var all := " x - " + e.text[from..];
    assert Shown(e.text) == Clip(all);
    assert e.text[0..] == e.text;
  }

  lemma TitleIs(s: string)
    ensures |ClipTitle(s)| <= 251 && ClipTitle(s) <= s && (|ClipTitle(s)| < 251 ==> ClipTitle(s) == s)
  {
  }

  // ------------------------------------------------------------------ the first pass

  predicate Awaiting(lines: seq<Line>) {
    lines != [] && lines[|lines| - 1].kind == Text
  }

  /** What the lines read so far and the description that is left mean together. */
  ghost function Total(lines: seq<Line>, rest: seq<Source>): Meant {
    if Awaiting(lines)
    then Prefixed(EntriesOf(lines[..|lines| - 1]), Entries([Source(':', lines[|lines| - 1].rawText)] + rest))
    else Prefixed(EntriesOf(lines), Entries(rest))
  }

  lemma EntriesSnoc(lines: seq<Line>, line: Line)
    ensures EntriesOf(lines + [line]) == EntriesOf(lines) + [EntryOf(line)]
    ensures (lines + [line])[..|lines|] == lines
  {
  }

  lemma TotalEnd(lines: seq<Line>)
    ensures Total(lines, []) == Means(EntriesOf(lines))
  {
    assert EntriesOf(lines) + [] == EntriesOf(lines);
    if Awaiting(lines) {
      var before, last := lines[..|lines| - 1], lines[|lines| - 1];
      assert lines == before + [last];
      EntriesSnoc(before, last);
      assert [Source(':', last.rawText)] + [] == [Source(':', last.rawText)];
    }
  }

  /** A new text line. */
  lemma TotalText(lines: seq<Line>, line: Line, s: Source, rest: seq<Source>)
    requires !Awaiting(lines) && line.kind == Text && s == Source(':', line.rawText)
    ensures Total(lines, [s] + rest) == Total(lines + [line], rest)
  {
    EntriesSnoc(lines, line);
  }

  /** A text line made a choice by its command. */
  lemma TotalChoice(before: seq<Line>, was: Line, now: Line, s: Source, rest: seq<Source>)
    requires was.kind == Text && now.kind == Choice && now.rawText == was.rawText && !Bare(was.rawText)
    requires s.directive == '!' && s.text == now.command
    ensures Total(before + [was], [s] + rest) == Total(before + [now], rest)
  {
    EntriesSnoc(before, was);
    EntriesSnoc(before, now);
    var t := Source(':', was.rawText);
    var all := [t] + ([s] + rest);
    assert all[0] == t && all[1] == s && all[2..] == rest;
    var e := [EntryOf(now)];
    assert Entries(all) == Prefixed(e, Entries(rest));
    if Entries(rest).Means? {
      Assoc(EntriesOf(before), e, Entries(rest).entries);
    }
  }

  /** A command with nothing to command. */
  lemma TotalIgnore(lines: seq<Line>, s: Source, rest: seq<Source>)
    requires !Awaiting(lines) && s.directive != ':'
    ensures Total(lines, [s] + rest) == Total(lines, rest)
  {
    assert ([s] + rest)[1..] == rest;
  }

  /** A choice while the one before it still waits for its command. */
  lemma TotalAbend(lines: seq<Line>, s: Source, rest: seq<Source>)
    requires Awaiting(lines) && s.directive == ':'
    ensures Total(lines, [s] + rest) == GivenUp
  {
    var t := Source(':', lines[|lines| - 1].rawText);
    assert ([t] + ([s] + rest))[1] == s;
  }

  /** A command for a bare designator. */
  lemma TotalBare(lines: seq<Line>, s: Source, rest: seq<Source>)
    requires Awaiting(lines) && Bare(lines[|lines| - 1].rawText) && s.directive == '!'
    ensures Total(lines, [s] + rest) == Unreadable
  {
    var t := Source(':', lines[|lines| - 1].rawText);
    assert ([t] + ([s] + rest))[1] == s;
  }

  lemma ReadSnoc(lines: seq<Line>, line: Line)
    requires AllRead(lines) && ReadLine(lines + [line], |lines|)
    ensures AllRead(lines + [line])
  {
    forall k: nat | k < |lines| ensures ReadLine(lines + [line], k) {
      assert ReadLine(lines, k);
      assert (lines + [line])[..k] == lines[..k];
    }
  }

  lemma ReadFront(lines: seq<Line>, n: nat)
    requires AllRead(lines) && n <= |lines|
    ensures AllRead(lines[..n])
  {
    forall k: nat | k < n ensures ReadLine(lines[..n], k) {
      assert ReadLine(lines, k);
      assert lines[..n][..k] == lines[..k];
    }
  }

  lemma TakenSnoc(lines: seq<Line>, line: Line, c: char)
    ensures Taken(lines + [line], c) <==> Taken(lines, c) || line.choiceLetter == c
  {
    var all := lines + [line];
    if j :| 0 <= j < |lines| && lines[j].choiceLetter == c {
      assert all[j].choiceLetter == c;
    }
    assert all[|lines|] == line;
  }

  lemma MarksSnoc(fltr: seq<bool>, lines: seq<Line>, line: Line)
    requires Marks(fltr, lines) && line.choiceLetter as int < 127
    ensures line.choiceLetter as int < 32 ==> Marks(fltr, lines + [line])
    ensures Marks(fltr[line.choiceLetter as int := true], lines + [line])
  {
    forall c: char ensures Taken(lines + [line], c) <==> Taken(lines, c) || line.choiceLetter == c {
      TakenSnoc(lines, line, c);
    }
    hide Taken;
    assert line.choiceLetter as int < 32 ==> Taken(lines, line.choiceLetter) by {
      LowTaken(lines, line.choiceLetter);
    }
  }

  lemma LowTaken(lines: seq<Line>, c: char)
    ensures c as int < 32 || c == 'q' ==> Taken(lines, c)
  {
  }

  /** Dropping a line without a letter marks nothing less. */
  lemma MarksText(fltr: seq<bool>, lines: seq<Line>, line: Line)
    requires Marks(fltr, lines + [line]) && line.choiceLetter == '\0'
    ensures Marks(fltr, lines)
  {
    forall c: char ensures Taken(lines + [line], c) <==> Taken(lines, c) {
      TakenSnoc(lines, line, c);
    }
  }

  function ClipTitle(s: string): string {
    if |s| <= MAXLEN - 5 then s else s[..MAXLEN - 5]
  }

  /** The lines so far: every line a choice but perhaps the last, every text there. */
  ghost predicate InOrder(lines: seq<Line>) {
    && (forall k :: 0 <= k < |lines| - 1 ==> lines[k].kind == Choice)
    && (forall k :: 0 <= k < |lines| ==> lines[k].rawText != "")
  }

  /** How title and lines stand to what is left of the description. */
  ghost predicate Reading(input: seq<Source>, title: string, lines: seq<Line>, rest: seq<Source>) {
    if title == "" then
      && lines == [] && Meaning(input) == Entries(AfterTitle(rest))
      && Title(Meaningful(input)) == Title(rest)
    else
      Meaning(input) == Total(lines, rest) && title == ClipTitle(Title(Meaningful(input)))
  }

  lemma MeaningfulStep(input: seq<Source>, i: nat)
    requires i < |input|
    ensures Meaningful(input[i..]) ==
            (if Significant(input[i]) then [input[i]] else []) + Meaningful(input[i + 1..])
  {
    assert input[i..][1..] == input[i + 1..];
  }

  lemma ReadingTitle(input: seq<Source>, s: Source, rest: seq<Source>)
    requires Reading(input, "", [], [s] + rest) && s.text != "" && s.directive == ':'
    ensures Reading(input, ClipTitle(s.text), [], rest) && ClipTitle(s.text) != ""
  {
    assert ([s] + rest)[1..] == rest;
    hide Meaningful, Entries;
    assert EntriesOf([]) == [];
    assert Entries(rest).Means? ==> [] + Entries(rest).entries == Entries(rest).entries;
  }

  /** A command before the title, or after a line that has one. */
  lemma ReadingIgnore(input: seq<Source>, title: string, lines: seq<Line>, s: Source, rest: seq<Source>)
    requires Reading(input, title, lines, [s] + rest) && s.directive != ':' && !Awaiting(lines)
    ensures Reading(input, title, lines, rest)
  {
    TotalIgnore(lines, s, rest);
    assert ([s] + rest)[1..] == rest;
    hide Meaningful, Entries, Total;
  }

  /** `now` is `was` with its last line made a choice by the command `text`. */
  predicate Commanded(was: seq<Line>, now: seq<Line>, text: string) {
    && |now| == |was| > 0 && now[..|now| - 1] == was[..|was| - 1]
    && var line := now[|now| - 1];
       line.kind == Choice && line.command == text && line.rawText == was[|was| - 1].rawText
  }

  lemma OrderLast(lines: seq<Line>)
    requires InOrder(lines) && Awaiting(lines)
    ensures lines[|lines| - 1].rawText != ""
  {
  }

  lemma OrderCommanded(was: seq<Line>, now: seq<Line>, text: string)
    requires InOrder(was) && Awaiting(was) && Commanded(was, now, text)
    ensures InOrder(now) && !Awaiting(now)
  {
    var n := |was| - 1;
    forall k | 0 <= k < n ensures now[k] == was[k] {
      assert now[..n][k] == was[..n][k];
    }
  }

  lemma OrderText(lines: seq<Line>, line: Line)
    requires InOrder(lines) && !Awaiting(lines) && line.kind == Text && line.rawText != ""
    ensures InOrder(lines + [line]) && Awaiting(lines + [line])
  {
  }

  lemma ReadingChoice(input: seq<Source>, title: string, was: seq<Line>, now: seq<Line>, s: Source, rest: seq<Source>)
    requires Reading(input, title, was, [s] + rest) && s.directive == '!' && Awaiting(was)
    requires Commanded(was, now, s.text) && !Bare(was[|was| - 1].rawText)
    ensures Reading(input, title, now, rest)
  {
    hide Meaningful, Meaning, Title, AfterTitle, Entries, Total;
    var before, n := was[..|was| - 1], |was| - 1;
    assert now == before + [now[n]];
    assert was == before + [was[n]];
    TotalChoice(before, was[n], now[n], s, rest);
  }

  lemma ReadingText(input: seq<Source>, title: string, lines: seq<Line>, line: Line, s: Source, rest: seq<Source>)
    requires Reading(input, title, lines, [s] + rest) && title != "" && !Awaiting(lines)
    requires line.kind == Text && s == Source(':', line.rawText)
    ensures Reading(input, title, lines + [line], rest)
  {
    TotalText(lines, line, s, rest);
    hide Meaningful, Entries, Total;
  }

  lemma ReadingAbend(input: seq<Source>, title: string, lines: seq<Line>, s: Source, rest: seq<Source>)
    requires Reading(input, title, lines, [s] + rest) && Awaiting(lines) && s.directive == ':'
    ensures Meaning(input) == GivenUp
  {
    TotalAbend(lines, s, rest);
    hide Meaningful, Entries, Total;
  }

  lemma ReadingBare(input: seq<Source>, title: string, lines: seq<Line>, s: Source, rest: seq<Source>)
    requires Reading(input, title, lines, [s] + rest) && s.directive == '!'
    requires Awaiting(lines) && Bare(lines[|lines| - 1].rawText)
    ensures Meaning(input) == Unreadable
  {
    TotalBare(lines, s, rest);
    hide Meaningful, Entries, Total;
  }

  lemma ReadingStarts(input: seq<Source>)
    ensures Reading(input, "", [], Meaningful(input))
  {
    hide Meaningful, Entries, Total;
  }

  lemma ReadingEnds(input: seq<Source>, title: string, lines: seq<Line>)
    requires Reading(input, title, lines, Meaningful([]))
    ensures Meaning(input) == Means(EntriesOf(lines)) && title == ClipTitle(Title(Meaningful(input)))
  {
    TotalEnd(lines);
    assert EntriesOf([]) == [];
    hide Total;
  }

  lemma AllReadNone()
    ensures AllRead([]) && InOrder([]) && !Awaiting([])
  {
  }

  /** A new text line has no letter yet. */
  lemma ReadText(lines: seq<Line>, line: Line, fltr: seq<bool>)
    requires AllRead(lines) && Marks(fltr, lines) && line == Line(Text, line.rawText, "", "", '\0', 0)
    ensures AllRead(lines + [line]) && Marks(fltr, lines + [line])
  {
    ReadSnoc(lines, line);
    MarksSnoc(fltr, lines, line);
  }
}
