/** The menu description parser with its two passes, and the keys that select the menu's items. */
module MenuKeys {
  import opened Helpers
  import opened MenuLines
  import opened MenuLetters

  // ------------------------------------------------------------------ the keys

  datatype Action = Leave | Help | Run(index: nat) | Ignore

  /** The first line with the letter. */
  function Scan(lines: seq<Line>, key: char, from: nat): Option<nat>
    decreases |lines| - from
  {
    if from >= |lines| then None
    else if lines[from].choiceLetter == key then Some(from)
    else Scan(lines, key, from + 1)
  }

  /** What a key does: some keys have a meaning of their own, whatever the letters are. */
  function Respond(lines: seq<Line>, current: nat, key: char): Action {
    if key == '\n' then Run(current)
    else if key == '?' then Help
    else if key == 'q' then Leave
    else match Scan(lines, key, 0)
      case None => Ignore
      case Some(i) => Run(i)
  }

  lemma {:induction false} ScanFinds(lines: seq<Line>, i: nat, from: nat)
    requires Distinct(lines) && from <= i < |lines| && lines[i].choiceLetter != '\0'
    ensures Scan(lines, lines[i].choiceLetter, from) == Some(i)
    decreases i - from
  {
    if from < i {
      assert lines[from].choiceLetter != '\0' ==> lines[from].choiceLetter != lines[i].choiceLetter;
      ScanFinds(lines, i, from + 1);
    }
  }

  /** The letter of a line runs that line, and no other, exactly when it is not the question mark. */
  lemma LetterRunsItsLine(lines: seq<Line>, i: nat, current: nat)
    requires Distinct(lines) && i < |lines| && Lettered(lines[i])
    ensures Respond(lines, current, lines[i].choiceLetter) == Run(i) <==> lines[i].choiceLetter != '?'
  {
    ScanFinds(lines, i, 0);
  }

  predicate AllCommanded(entries: seq<Entry>) {
    forall k :: 0 <= k < |entries| ==> entries[k].command.Some?
  }

  /** The lines as both passes leave them. */
  ghost predicate FromBothPasses(input: seq<Source>, lines: seq<Line>) {
    && Meaning(input).Means?
    && var before := LinesOf(Meaning(input).entries);
       |before| == |lines| && AllAllotted(before, lines, |lines|)
  }

  lemma AllottedEntries(before: seq<Line>, after: seq<Line>)
    requires |before| == |after| && AllAllotted(before, after, |after|)
    ensures EntriesOf(after) == EntriesOf(before)
  {
    forall k: nat | k < |after| ensures EntryOf(after[k]) == EntryOf(before[k]) {
      assert Halfway(before, after, k)[k] == before[k];
      KeepsReserved(Halfway(before, after, k), k, after[k]);
    }
  }

  lemma OnlyMeans(input: seq<Source>)
    ensures Meaning(input).Means? <==> Meaning(input) != GivenUp && Meaning(input) != Unreadable
  {
  }

  lemma {:induction false} LinesCount(entries: seq<Entry>)
    ensures |LinesOf(entries)| == |entries| && EntriesOf(LinesOf(entries)) == entries
  {
    if entries != [] {
      var n := |entries| - 1;
      var before := LinesOf(entries[..n]);
      LinesCount(entries[..n]);
      EntriesSnoc(before, LineOf(before, entries[n]));
      assert entries == entries[..n] + [entries[n]];
    }
  }

  lemma AllottedChoices(before: seq<Line>, after: seq<Line>)
    requires |before| == |after| && AllAllotted(before, after, |after|)
    ensures AllChoices(before)
  {
    forall k: nat | k < |before| ensures before[k].kind == Choice {
      assert Allotted(Halfway(before, after, k), k, after[k]);
      assert Halfway(before, after, k)[k] == before[k];
    }
  }

  lemma CommandedAll(lines: seq<Line>)
    requires AllChoices(lines)
    ensures AllCommanded(EntriesOf(lines))
  {
  }

  lemma HalfwayAll(before: seq<Line>, after: seq<Line>)
    requires |before| == |after|
    ensures Halfway(before, after, |after|) == after
  {
  }

  lemma CommandedCount(was: seq<Line>, now: seq<Line>, text: string)
    requires Commanded(was, now, text)
    ensures |now| == |was|
  {
  }

  lemma NothingAdded(rest: seq<Source>)
    ensures [] + rest == rest
  {
  }

  lemma EndsOnly(before: seq<Line>, outcome: Outcome)
    requires Ends(before, outcome)
    ensures forall o :: Ends(before, o) <==> o == outcome
  {
    hide Ends;
    forall o | Ends(before, o) ensures o == outcome {
      EndsUnique(before, o, outcome);
    }
  }

  /** Every line has had its turn. */
  lemma EndsParsed(before: seq<Line>, after: seq<Line>)
    requires |before| == |after| && AllAllotted(before, after, |after|)
    ensures Ends(before, Parsed)
  {
    assert EndsBy(before, after, |before|, Parsed);
  }

  class Menu {
    var title: string
    var line: seq<Line>
    var lineIndex: nat

    constructor ()
      ensures title == "" && line == []
    {
      title, line, lineIndex := "", [], 0;
    }

    /** A '!' line: makes the last line a choice, if it is not one yet. A designator alone makes it read
        past the end of the text. */
    method Command(text: string, fltr: array<bool>) returns (made: bool, fault: bool)
      requires fltr.Length == 127 && Marks(fltr[..], line) && AllRead(line)
      requires Awaiting(line) ==> line[|line| - 1].rawText != ""
      modifies this`line, fltr
      ensures fault <==> Awaiting(old(line)) && Bare(old(line)[|old(line)| - 1].rawText)
      ensures made <==> Awaiting(old(line)) && !fault
      ensures !made ==> line == old(line) && fltr[..] == old(fltr[..])
      ensures made ==> Commanded(old(line), line, text)
      ensures made ==>
                var n, raw := |old(line)| - 1, old(line)[|old(line)| - 1].rawText;
                && (|raw| > 1 || (|raw| == 1 && raw[0] != '-' && raw[0] != '_'))
                && |line| > n && ReadAs(old(line)[..n], raw, text, line[n])
      ensures Marks(fltr[..], line) && AllRead(line)
    {
      made, fault := false, false;
      if |line| == 0 {
        return;
      }
      var k := |line| - 1;
      if line[k].kind != Text {
        return;
      }
      ghost var before, was := line[..k], line[k];
      var raw := line[k].rawText;
      assert line == before + [was];
      assert ReadLine(line, k);
      ReadFront(line, k);
      MarksText(fltr[..], before, was);
      var s, letter := 0, '\0';
      if raw[s] == '-' || raw[s] == '_' {
        s := s + 1;
        if s == |raw| {
          fault := true;
          return;
        }
        var ltr := raw[s];
        if 31 < ltr as int < 127 {
          if !fltr[ltr as int] {
            fltr[ltr as int] := true;
            letter := ltr;
          }
        }
        s := s + 1;
      }
      assert letter == Reserved(before, raw);
      var now := Line(Choice, raw, text, Clip(" x - " + raw[s..]), letter, 0);
      assert now.choiceText == Shown(raw) by {
        assert raw[0..] == raw;
      }
      line := line[..k] + [now];
      assert line[..k] == before;
      ReadSnoc(before, now);
      MarksSnoc(old(fltr[..]), before, now);
      LineIs(before, Entry(raw, Some(text)));
      made := true;
    }

    /** How far the first pass has come: `rest` is what is left of the description `input`. */
    ghost predicate HasRead(input: seq<Source>, rest: seq<Source>, choices: nat, commands: nat, fltr: array<bool>)
      reads this`title, this`line, fltr
    {
      && fltr.Length == 127 && Reading(input, title, line, rest) && (title == "" ==> line == [])
      && choices == |line| && commands == |line| - (if Awaiting(line) then 1 else 0)
      && Marks(fltr[..], line) && AllRead(line) && InOrder(line)
    }

    /** A '!' line that says something. */
    method TakeCommand(s: Source, commands0: nat, fltr: array<bool>,
                       ghost input: seq<Source>, ghost rest: seq<Source>, ghost choices: nat)
      returns (outcome: Outcome, commands: nat)
      requires s.directive == '!' && s.text != "" && HasRead(input, [s] + rest, choices, commands0, fltr)
      modifies this`line, fltr
      ensures outcome == Faulted || outcome == Parsed
      ensures if outcome == Faulted then Meaning(input) == Unreadable
              else HasRead(input, rest, choices, commands, fltr)
    {
      hide Meaning, Marks, AllRead, Reading, InOrder, Awaiting, Commanded, Bare;
      commands := commands0;
      if Awaiting(line) {
        OrderLast(line);
      }
      ghost var was := line;
      var made, fault := Command(s.text, fltr);
      if fault {
        ReadingBare(input, title, line, s, rest);
        return Faulted, commands;
      }
      if made {
        commands := commands + 1;
        ReadingChoice(input, title, was, line, s, rest);
        OrderCommanded(was, line, s.text);
        CommandedCount(was, line, s.text);
      } else {
        ReadingIgnore(input, title, line, s, rest);
      }
      return Parsed, commands;
    }

    /** A ':' line: the title, or a new line of text. */
    method TakeText(s: Source, choices0: nat, commands: nat, fltr: array<bool>,
                    ghost input: seq<Source>, ghost rest: seq<Source>)
      returns (outcome: Outcome, choices: nat)
      requires s.directive == ':' && s.text != "" && HasRead(input, [s] + rest, choices0, commands, fltr)
      modifies this`title, this`line
      ensures outcome == Abended || outcome == Parsed
      ensures if outcome == Abended then Meaning(input) == GivenUp
              else HasRead(input, rest, choices, commands, fltr)
    {
      hide Meaning, Marks, AllRead, Reading, InOrder, Awaiting;
      choices := choices0;
      if choices > commands {
        ReadingAbend(input, title, line, s, rest);
        return Abended, choices;
      }
      if title == "" {
        ReadingTitle(input, s, rest);
        title := ClipTitle(s.text);
      } else {
        var added := Line(Text, s.text, "", "", '\0', 0);
        ReadingText(input, title, line, added, s, rest);
        ReadText(line, added, fltr[..]);
        OrderText(line, added);
        line := line + [added];
        choices := choices + 1;
      }
      return Parsed, choices;
    }

    /** The first pass. It gives up, or stops where it cannot read on, exactly where the description says
        so, and otherwise leaves a line for every entry. */
    method ReadDescription(input: seq<Source>, fltr: array<bool>) returns (outcome: Outcome)
      requires title == "" && line == [] && fltr.Length == 127 && Marks(fltr[..], line)
      modifies this`title, this`line, fltr
      ensures outcome == match Meaning(input) case GivenUp => Abended case Unreadable => Faulted case Means(_) => Parsed
      ensures outcome == Parsed ==>
                && line == LinesOf(Meaning(input).entries) && title == ClipTitle(Title(Meaningful(input)))
                && Marks(fltr[..], line) && AllRead(line)
      ensures outcome == Parsed ==>
                && title <= Title(Meaningful(input)) && |title| <= 251
                && (|title| < 251 ==> title == Title(Meaningful(input)))
    {
      var commands, choices, i := 0, 0, 0;
      assert input[0..] == input;
      ReadingStarts(input);
      AllReadNone();
      assert HasRead(input, Meaningful(input), choices, commands, fltr);
      hide Meaningful, Meaning, Title, AfterTitle, Entries, HasRead, LinesOf, EntriesOf;
      while i < |input|
        invariant i <= |input| && HasRead(input, Meaningful(input[i..]), choices, commands, fltr)
      {
        var s := input[i];
        ghost var rest := Meaningful(input[i + 1..]);
        MeaningfulStep(input, i);
        NothingAdded(rest);
        i := i + 1;
        if s.text == "" || s.directive == '#' {
          continue;
        }
        match s.directive
        case '!' =>
          outcome, commands := TakeCommand(s, commands, fltr, input, rest, choices);
          if outcome != Parsed {
            return;
          }
        case ':' =>
          outcome, choices := TakeText(s, choices, commands, fltr, input, rest);
          if outcome != Parsed {
            return;
          }
        case _ =>
      }
      assert input[|input|..] == [];
      HasReadAll(input, choices, commands, fltr);
      TitleIs(Title(Meaningful(input)));
      return Parsed;
    }

    lemma HasReadAll(input: seq<Source>, choices: nat, commands: nat, fltr: array<bool>)
      requires HasRead(input, Meaningful([]), choices, commands, fltr)
      ensures Meaning(input).Means? && line == LinesOf(Meaning(input).entries)
      ensures title == ClipTitle(Title(Meaningful(input))) && Marks(fltr[..], line) && AllRead(line)
    {
      ReadingEnds(input, title, line);
      ReadIs(line);
    }

    /** A choice's turn in the second pass. */
    method AllotLetter(i: nat, fltr: array<bool>) returns (outcome: Outcome)
      requires i < |line| && fltr.Length == 127 && Marks(fltr[..], line) && Lookable(line[i])
      modifies this`line, fltr
      ensures outcome != Abended && (outcome != Parsed ==> line == old(line))
      ensures outcome == Parsed ==> TurnTaken(old(line), line, i) && Marks(fltr[..], line)
      ensures outcome == Parsed ==> |line| == |old(line)| && TurnGives(old(line), i, line[i])
      ensures outcome == OutOfLetters ==> Stuck(line, i)
      ensures outcome == Faulted ==> Faulting(line, i)
    {
      var text := line[i].choiceText;
      var pos, s, ltr := 1, 5, line[i].choiceLetter;
      ghost var lines, marks := line, fltr[..];
      hide Marks;
      Marked(marks, lines);
      if ltr != '\0' {
        while s < |text|
          invariant 5 <= s <= |text| && pos == 1
          invariant forall k :: 5 <= k < s ==> text[k] != ltr
        {
          if text[s] == ltr {
            pos := s;
            break;
          }
          s := s + 1;
        }
      } else {
        while s < |text|
          invariant 5 <= s <= |text|
          invariant forall k :: 5 <= k < s ==> !Stops(lines, text[k])
        {
          if text[s] != ' ' {
            if text[s] as int >= 127 {
              assert FirstStop(lines, text, s);
              return Faulted;
            }
            if !fltr[text[s] as int] {
              break;
            }
          }
          s := s + 1;
        }
        if s < |text| {
          assert FirstStop(lines, text, s);
          pos, ltr := s, text[s];
        } else {
          assert NoStop(lines, text);
          var code := 48;
          while code < 127 && fltr[code]
            invariant 48 <= code <= 127
            invariant forall d: char :: 48 <= d as int < code ==> Taken(lines, d)
          {
            assert Taken(lines, code as char);
            code := code + 1;
          }
          if code > 126 {
            return OutOfLetters;
          }
          ltr := code as char;
        }
      }
      fltr[ltr as int] := true;
      var now := line[i].(choiceLetter := ltr, letterPos := pos, choiceText := text[1 := ltr]);
      line := line[i := now];
      MarksGiven(marks, lines, i, now);
      AllottedGives(lines, i, now);
      hide *;
      return Parsed;
    }

    /** How far the second pass has come. */
    ghost predicate Passed(before: seq<Line>, fltr: array<bool>)
      reads this`line, this`lineIndex, fltr
    {
      && lineIndex <= |line| == |before| && fltr.Length == 127 && Marks(fltr[..], line)
      && line == Halfway(before, line, lineIndex) && AllAllotted(before, line, lineIndex)
      && (lineIndex > 0 ==> before[lineIndex - 1].kind == Choice)
    }

    /** The turn of the line at lineIndex. */
    method TakeTurn(fltr: array<bool>, ghost before: seq<Line>) returns (outcome: Outcome)
      requires AllRead(before) && Passed(before, fltr) && lineIndex < |line|
      modifies this`line, fltr
      ensures |line| == |old(line)| && outcome != Abended && (outcome != Parsed ==> line == old(line))
      ensures outcome == Parsed ==> Marks(fltr[..], line) && TurnTaken(old(line), line, lineIndex)
                                    && before[lineIndex].kind == Choice
      ensures outcome != Parsed ==> Ends(before, outcome)
      ensures outcome == OutOfLetters ==> |line| > 78
    {
      HalfwayAt(before, line, lineIndex);
      hide Marks, AllRead, Awaiting, Halfway, AllAllotted, Lookable, TurnTaken, RunOut, NoStop, Allotted;
      if line[lineIndex].kind == Text {
        outcome := Faulted;
      } else {
        LineFrame(before, lineIndex);
        outcome := AllotLetter(lineIndex, fltr);
      }
      if outcome != Parsed {
        assert EndsBy(before, line, lineIndex, outcome);
      }
      if outcome == OutOfLetters {
        RunsOutLate(line, lineIndex);
      }
    }

    lemma PassedOn(before: seq<Line>, lines: seq<Line>, fltr: array<bool>)
      requires |lines| == |before| && 0 < lineIndex <= |before| && fltr.Length == 127 && Marks(fltr[..], line)
      requires lines == Halfway(before, lines, lineIndex - 1) && AllAllotted(before, lines, lineIndex - 1)
      requires TurnTaken(lines, line, lineIndex - 1) && before[lineIndex - 1].kind == Choice
      ensures Passed(before, fltr)
    {
      hide Marks, Halfway, AllAllotted, TurnTaken;
      AllottedStep(before, lines, line, lineIndex - 1);
    }

    /** The turns of the second pass, until one ends it. */
    method TakeTurns(fltr: array<bool>, ghost before: seq<Line>) returns (outcome: Outcome)
      requires AllRead(before) && lineIndex == 0 && Passed(before, fltr)
      modifies this`line, this`lineIndex, fltr
      ensures |line| == |before| && Ends(before, outcome)
      ensures outcome == Parsed ==> AllAllotted(before, line, |line|)
      ensures outcome == OutOfLetters ==> |line| > 78
    {
      hide AllRead, AllAllotted, Ends, TurnTaken, Marks, Halfway;
      while lineIndex < |line|
        invariant lineIndex <= |line| == |before| && Passed(before, fltr)
      {
        ghost var lines := line;
        outcome := TakeTurn(fltr, before);
        if outcome != Parsed {
          return;
        }
        lineIndex := lineIndex + 1;
        PassedOn(before, lines, fltr);
      }
      EndsParsed(before, line);
      return Parsed;
    }

    /** The second pass: a letter for every line, until a turn ends it. */
    method AllotLetters(fltr: array<bool>) returns (outcome: Outcome)
      requires fltr.Length == 127 && Marks(fltr[..], line) && AllRead(line)
      modifies this`line, this`lineIndex, fltr
      ensures |line| == |old(line)|
      ensures forall o :: Ends(old(line), o) <==> o == outcome
      ensures outcome == Parsed ==> AllAllotted(old(line), line, |line|)
      ensures outcome == OutOfLetters ==> |line| > 78
    {
      ghost var before := line;
      lineIndex := 0;
      AllottedNone(before);
      hide AllRead, AllAllotted, Ends, Marks, Halfway;
      outcome := TakeTurns(fltr, before);
      EndsOnly(before, outcome);
    }

    /** parse_menu_description. It gives up or stops reading where the description says so. Otherwise the
        second pass over the lines of its entries decides. */
    method ParseMenuDescription(input: seq<Source>) returns (outcome: Outcome)
      requires title == "" && line == []
      modifies this
      ensures Meaning(input) == GivenUp ==> outcome == Abended
      ensures Meaning(input) == Unreadable ==> outcome == Faulted
      ensures Meaning(input).Means? ==> forall o :: Ends(LinesOf(Meaning(input).entries), o) <==> o == outcome
      ensures outcome == OutOfLetters ==> Meaning(input).Means? && |Meaning(input).entries| > 78
      ensures outcome == Parsed ==>
                && Means(EntriesOf(line)) == Meaning(input) && AllCommanded(Meaning(input).entries)
                && FromBothPasses(input, line) && title == ClipTitle(Title(Meaningful(input)))
      ensures outcome == Parsed ==>
                Distinct(line) && AllLettered(line) && |line| <= 94
    {
      var fltr := new bool[127](c => 0 <= c < 32);
      fltr['q' as int] := true;
      assert Marks(fltr[..], line);
      outcome := ReadDescription(input, fltr);
      if outcome != Parsed {
        OnlyMeans(input);
        return;
      }
      ghost var before := line;
      ghost var entries := Meaning(input).entries;
      LinesCount(entries);
      hide Meaning, Marks, AllRead, AllAllotted, Distinct, Lettered, InOrder, Awaiting, AllCommanded, EntriesOf,
           AllChoices, LinesOf, Ends;
      outcome := AllotLetters(fltr);
      if outcome == Parsed {
        AllottedChoices(before, line);
        HotKeys(before, line, |line|);
        AllottedEntries(before, line);
        HalfwayAll(before, line);
        LettersBound(line);
        CommandedAll(before);
      }
    }

    /** The key handling of menu_cmd_processor, for characters. */
    method Press(key: char) returns (action: Action)
      modifies this`lineIndex
      ensures action == Respond(line, old(lineIndex), key)
      ensures lineIndex == if action.Run? then action.index else old(lineIndex)
      ensures key == '\n' ==> action == Run(old(lineIndex))
      ensures key == '?' ==> action == Help
      ensures key == 'q' ==> action == Leave
      ensures key != '\n' && key != '?' && key != 'q' ==>
                match action
                case Run(i) => i < |line| && line[i].choiceLetter == key
                               && forall j :: 0 <= j < i ==> line[j].choiceLetter != key
                case Ignore => forall j :: 0 <= j < |line| ==> line[j].choiceLetter != key
                case _ => false
    {
      match key {
        case '\n' =>
        case '?' =>
          return Help;
        case 'q' =>
          return Leave;
        case _ =>
          var i := 0;
          while i < |line|
            invariant i <= |line| && lineIndex == old(lineIndex)
            invariant Scan(line, key, i) == Scan(line, key, 0)
            invariant forall j :: 0 <= j < i ==> line[j].choiceLetter != key
          {
            if line[i].choiceLetter == key {
              lineIndex := i;
              break;
            }
            i := i + 1;
          }
          if i >= |line| {
            return Ignore;
          }
      }
      return Run(lineIndex);
    }
  }

  /** A menu whose only item asks for the question mark. */
  const QUESTION := [Source(':', "Title"), Source(':', "-?Help"), Source('!', "help")]

  /** A choice and its command at the head of a description. */
  lemma EntriesPair(a: string, x: string, rest: seq<Source>)
    requires !Bare(a)
    ensures Entries([Source(':', a), Source('!', x)] + rest) == Prefixed([Entry(a, Some(x))], Entries(rest))
  {
    var s := [Source(':', a), Source('!', x)] + rest;
    assert s[0] == Source(':', a) && s[1] == Source('!', x) && s[2..] == rest;
  }

  lemma MeaningOfTitled(t: string, s: seq<Source>)
    requires t != "" && forall i :: 0 <= i < |s| ==> Significant(s[i])
    ensures Meaning([Source(':', t)] + s) == Entries(s)
  {
    var all := [Source(':', t)] + s;
    MeaningfulAll(all);
    assert all[1..] == s;
    hide Entries, Meaningful;
  }

  lemma MeaningOfThree(t: string, a: string, x: string)
    requires t != "" && a != "" && x != "" && !Bare(a)
    ensures Meaning([Source(':', t), Source(':', a), Source('!', x)]) == Means([Entry(a, Some(x))])
  {
    var pair := [Source(':', a), Source('!', x)];
    MeaningOfTitled(t, pair);
    EntriesPair(a, x, []);
    assert Entries([]) == Means([]);
    hide Entries, Meaning;
    assert pair + [] == pair && [Entry(a, Some(x))] + [] == [Entry(a, Some(x))];
    assert [Source(':', t)] + pair == [Source(':', t), Source(':', a), Source('!', x)];
  }

  lemma {:induction false} MeaningfulAll(s: seq<Source>)
    requires forall i :: 0 <= i < |s| ==> Significant(s[i])
    ensures Meaningful(s) == s
  {
    if s != [] {
      MeaningfulAll(s[1..]);
    }
  }

  lemma OneLine(e: Entry)
    ensures LinesOf([e]) == [LineOf([], e)]
  {
    assert [e][..0] == [] && LinesOf([]) == [];
  }

  lemma TwoLines(e: Entry, f: Entry)
    ensures LinesOf([e, f]) == [LineOf([], e), LineOf([LineOf([], e)], f)]
  {
    OneLine(e);
    assert [e, f][..1] == [e];
  }

  /** Parsed, it has the question mark for its letter, and the key gives help. */
  lemma QuestionMarkShadowed(lines: seq<Line>, current: nat)
    requires FromBothPasses(QUESTION, lines)
    ensures |lines| == 1 && lines[0].choiceLetter == '?' && Respond(lines, current, '?') == Help
  {
    MeaningOfThree("Title", "-?Help", "help");
    var e := Entry("-?Help", Some("help"));
    OneLine(e);
    hide Meaning, LinesOf;
    var before := LinesOf([e]);
    assert before[0].choiceLetter == Reserved([], "-?Help") == '?';
    assert Halfway(before, lines, 0) == before;
    assert Allotted(before, 0, lines[0]);
  }

  /** A description of commanded choices, 78 at most, in characters of the table, is always parsed. */
  lemma ParsedAlways(entries: seq<Entry>)
    requires |entries| <= 78 && AllCommanded(entries)
    requires forall k :: 0 <= k < |entries| ==> Typable(entries[k].text)
    ensures !Ends(LinesOf(entries), Faulted) && !Ends(LinesOf(entries), OutOfLetters)
  {
    var lines := LinesOf(entries);
    LinesRead(entries);
    LinesCount(entries);
    forall k | 0 <= k < |lines| ensures lines[k].kind == Choice && Typable(lines[k].rawText) {
      assert EntryOf(lines[k]) == EntriesOf(lines)[k] == entries[k];
    }
    hide LinesOf, Typable, AllRead, Ends;
    NeverFaults(lines);
    NeverRunsOut(lines);
  }

  lemma {:induction false} LinesRead(entries: seq<Entry>)
    ensures AllRead(LinesOf(entries))
  {
    if entries != [] {
      var n := |entries| - 1;
      var before := LinesOf(entries[..n]);
      LinesRead(entries[..n]);
      assert (before + [LineOf(before, entries[n])])[..|before|] == before;
      ReadSnoc(before, LineOf(before, entries[n]));
    }
  }

  /** From the description to the key: the item cannot be run. */
  method QuestionMarkMenu() returns (outcome: Outcome, letter: char, action: Action)
    ensures outcome == Parsed && letter == '?' && action == Help
  {
    MeaningOfThree("Title", "-?Help", "help");
    ParsedAlways([Entry("-?Help", Some("help"))]);
    hide Meaning, Ends, FromBothPasses, LinesOf;
    var menu := new Menu();
    outcome := menu.ParseMenuDescription(QUESTION);
    NoAbend(LinesOf(Meaning(QUESTION).entries));
    QuestionMarkShadowed(menu.line, menu.lineIndex);
    letter := menu.line[0].choiceLetter;
    action := menu.Press(letter);
  }

  lemma NoAbend(before: seq<Line>)
    ensures !Ends(before, Abended)
  {
  }

  /** A menu with the same one-letter item twice. */
  const REPEATED := [Source(':', "Title"), Source(':', "a"), Source('!', "x"), Source(':', "a"), Source('!', "y")]

  lemma RepeatedMeaning()
    ensures Meaning(REPEATED) == Means([Entry("a", Some("x")), Entry("a", Some("y"))])
  {
    var first, second := [Source(':', "a"), Source('!', "x")], [Source(':', "a"), Source('!', "y")];
    MeaningOfTitled("Title", first + second);
    EntriesPair("a", "x", second);
    EntriesPair("a", "y", []);
    assert Entries([]) == Means([]);
    hide Entries, Meaning;
    assert second + [] == second && [Entry("a", Some("y"))] + [] == [Entry("a", Some("y"))];
    assert [Source(':', "Title")] + (first + second) == REPEATED;
    assert [Entry("a", Some("x"))] + [Entry("a", Some("y"))] == [Entry("a", Some("x")), Entry("a", Some("y"))];
  }

  /** Its second item gets '0', and the exclamation mark in front of it stays free. */
  lemma MarkLeftFree(lines: seq<Line>)
    requires FromBothPasses(REPEATED, lines)
    ensures |lines| == 2 && lines[0].choiceLetter == 'a' && lines[1].choiceLetter == '0' && !Taken(lines, '!')
  {
    RepeatedMeaning();
    var e, f := Entry("a", Some("x")), Entry("a", Some("y"));
    TwoLines(e, f);
    hide Meaning, LinesOf;
    var before := LinesOf([e, f]);
    assert Reserved([], "a") == '\0' && Reserved([LineOf([], e)], "a") == '\0';
    assert before[0].choiceText == before[1].choiceText == " x - a";
    assert Halfway(before, lines, 0) == before;
    assert Halfway(before, lines, 1) == [lines[0], before[1]];
    assert Allotted(before, 0, lines[0]) && Allotted([lines[0], before[1]], 1, lines[1]);
    FirstGetsA(before, lines[0]);
    SecondGetsZero([lines[0], before[1]], lines[1]);
  }

  lemma FirstGetsA(lines: seq<Line>, now: Line)
    requires |lines| == 2 && lines[0].choiceLetter == lines[1].choiceLetter == '\0'
    requires lines[0].choiceText == " x - a" && Allotted(lines, 0, now)
    ensures now.choiceLetter == 'a'
  {
    assert Stops(lines, lines[0].choiceText[5]);
  }

  lemma SecondGetsZero(lines: seq<Line>, now: Line)
    requires |lines| == 2 && lines[0].choiceLetter == 'a' && lines[1].choiceLetter == '\0'
    requires lines[1].choiceText == " x - a" && Allotted(lines, 1, now)
    ensures now.choiceLetter == '0'
  {
    assert Taken(lines, 'a') && !Stops(lines, lines[1].choiceText[5]);
    assert !Taken(lines, '0');
  }

  method RepeatedMenu() returns (outcome: Outcome, second: char, markFree: bool)
    ensures outcome == Parsed && second == '0' && markFree
  {
    RepeatedMeaning();
    ParsedAlways([Entry("a", Some("x")), Entry("a", Some("y"))]);
    hide Meaning, Ends, FromBothPasses, LinesOf, Taken;
    var menu := new Menu();
    outcome := menu.ParseMenuDescription(REPEATED);
    NoAbend(LinesOf(Meaning(REPEATED).entries));
    MarkLeftFree(menu.line);
    second, markFree := menu.line[1].choiceLetter, !Taken(menu.line, '!');
  }
}
