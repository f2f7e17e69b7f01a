/** View's word wrapping: how fmt_line turns one input line into display cells and sublines. */
module ViewWrap {
  import opened Helpers

  /** A line as fmt_line scans it: an escape sequence that leaves no cell, a space or hyphen (after
      which the line may be broken), or another character one or two columns wide. */
  datatype RawToken = Escape | Break(glyph: char) | Glyph(glyph: char, width: nat)
  type Token = t: RawToken | t.Glyph? ==> 1 <= t.width <= 2 witness Escape

  datatype RawCell = Cell(glyph: char, width: nat, breaks: bool)
  type Cell = c: RawCell | 1 <= c.width <= 2 witness RawCell.Cell(' ', 1, true)

  /** One subline: where its cells start in the cell buffer, how many there are, how wide they are. */
  datatype Subline = Subline(start: nat, cells: nat, cols: nat)

  // ------------------------------------------------------------------ specification

  /** The cells of a line: one for each token except escapes. */
  ghost function CellsOf(tokens: seq<Token>): seq<Cell> {
    if tokens == [] then []
    else
      (match tokens[0]
       case Escape => []
       case Break(g) => [Cell(g, 1, true)]
       case Glyph(g, w) => [Cell(g, w, false)]) + CellsOf(tokens[1..])
  }

  ghost function Width(cells: seq<Cell>): nat {
    if cells == [] then 0 else cells[0].width + Width(cells[1..])
  }

  /** Width of the word part that starts at cell `p`. */
  ghost function RightRun(all: seq<Cell>, p: nat): nat
    requires p <= |all|
    decreases |all| - p
  {
    if p == |all| || all[p].breaks then 0 else all[p].width + RightRun(all, p + 1)
  }

  /** A subline shows a stretch of the cells, no wider than the window. */
  ghost predicate Placed(all: seq<Cell>, max: nat, s: Subline) {
    && s.start + s.cells <= |all|
    && s.cols == Width(all[s.start..s.start + s.cells])
    && s.cols <= max
  }

  /** What cell a token makes. */
  ghost predicate Makes(t: Token, c: Cell) {
    match t
    case Escape => false
    case Break(g) => c.glyph == g && c.width == 1 && c.breaks
    case Glyph(g, w) => c.glyph == g && c.width == w && !c.breaks
  }

  /** The positions of all tokens but the escapes, in their order. */
  ghost predicate NoEscapes(tokens: seq<Token>, at: seq<nat>) {
    && (forall j, k :: 0 <= j < k < |at| ==> at[j] < at[k])
    && forall i: nat :: i in at <==> i < |tokens| && !tokens[i].Escape?
  }

  /** Each cell is made by the token at its position. */
  ghost predicate MadeAt(tokens: seq<Token>, at: seq<nat>, cells: seq<Cell>) {
    |at| == |cells| && forall k :: 0 <= k < |at| ==> at[k] < |tokens| && Makes(tokens[at[k]], cells[k])
  }

  /** The cells of a line are made by its tokens, all but the escapes, in their order. */
  lemma {:induction false} CellsAre(tokens: seq<Token>) returns (at: seq<nat>)
    ensures NoEscapes(tokens, at) && MadeAt(tokens, at, CellsOf(tokens))
  {
    if tokens == [] {
      at := [];
    } else {
      var rest := CellsAre(tokens[1..]);
      var t := tokens[0];
      var cells := CellsOf(tokens[1..]);
      NoEscapesOn(tokens, rest);
      MadeTail(tokens, rest, cells);
      if t.Escape? {
        at := OneOn(rest);
        assert CellsOf(tokens) == cells;
      } else {
        var c: Cell := if t.Break? then Cell(t.glyph, 1, true) else Cell(t.glyph, t.width, false);
        at := [0] + OneOn(rest);
        MadeHead(tokens, OneOn(rest), c, cells);
        assert CellsOf(tokens) == [c] + cells;
      }
    }
  }

  lemma NoEscapesOn(tokens: seq<Token>, rest: seq<nat>)
    requires tokens != [] && NoEscapes(tokens[1..], rest)
    ensures NoEscapes(tokens, if tokens[0].Escape? then OneOn(rest) else [0] + OneOn(rest))
  {
    var head := !tokens[0].Escape?;
    var at := if head then [0] + OneOn(rest) else OneOn(rest);
    forall i: nat ensures i in at <==> i < |tokens| && !tokens[i].Escape? {
      InPicksOn(rest, head, i);
    }
    hide OneOn;
  }

  lemma MadeTail(tokens: seq<Token>, rest: seq<nat>, cells: seq<Cell>)
    requires tokens != [] && MadeAt(tokens[1..], rest, cells)
    ensures MadeAt(tokens, OneOn(rest), cells)
  {
    hide Makes;
    assert forall k :: 0 <= k < |rest| ==> tokens[1..][rest[k]] == tokens[rest[k] + 1];
  }

  lemma MadeHead(tokens: seq<Token>, next: seq<nat>, c: Cell, cells: seq<Cell>)
    requires tokens != [] && MadeAt(tokens, next, cells) && Makes(tokens[0], c)
    ensures MadeAt(tokens, [0] + next, [c] + cells)
  {
    hide Makes;
  }

  ghost predicate NoBreaks(all: seq<Cell>, a: nat, b: nat)
    requires b <= |all|
  {
    forall k :: a <= k < b ==> !all[k].breaks
  }

  ghost predicate AtRunStart(all: seq<Cell>, p: nat) {
    p <= |all| && (p == 0 || all[p - 1].breaks)
  }

  ghost predicate AtRunEnd(all: seq<Cell>, p: nat) {
    p <= |all| && (p == |all| || all[p].breaks)
  }

  ghost predicate StartsWord(all: seq<Cell>, p: nat) {
    AtRunStart(all, p) && p < |all| && !all[p].breaks
  }

  /** What the word at `p` needs: its width, and at the end of the line one column more. */
  ghost function Room(all: seq<Cell>, p: nat): nat
    requires p <= |all|
  {
    RightRun(all, p) + if NoBreaks(all, p, |all|) then 1 else 0
  }

  /** The subline that starts at `s` has to end before `p`: the word there finds no room, the line is
      full at the end of a word, or the subline is in a word from its start on and not one cell more
      of it fits. Only the first subline can be empty. */
  ghost predicate MustEnd(all: seq<Cell>, max: nat, s: nat, p: nat, first: bool)
    requires s <= p <= |all|
  {
    var cols := Width(all[s..p]);
    || (StartsWord(all, p) && (s < p || first) && cols + Room(all, p) >= max)
    || (cols == max && AtRunEnd(all, p))
    || (s < p < |all| && NoBreaks(all, s, p + 1) && cols + all[p].width > max)
  }

  /** The subline that starts at `s` need not end before `p`: each word that starts in it, but for one
      that a later subline starts with, finds its room. */
  ghost predicate MayReach(all: seq<Cell>, max: nat, s: nat, p: nat, first: bool)
    requires s <= p <= |all|
  {
    forall x: nat :: s <= x < p && StartsWord(all, x) && (s < x || first) ==> Width(all[s..x]) + Room(all, x) < max
  }

  /** The sublines follow one another without gap or overlap, from the first cell up to `end`. */
  ghost predicate Chained(subs: seq<Subline>, end: nat) {
    && (subs == [] ==> end == 0)
    && (subs != [] ==> subs[0].start == 0 && subs[|subs| - 1].start + subs[|subs| - 1].cells == end)
    && forall k, m :: 0 <= k && m == k + 1 < |subs| ==> subs[m].start == subs[k].start + subs[k].cells
  }

  ghost predicate AllPlaced(all: seq<Cell>, max: nat, subs: seq<Subline>) {
    forall k :: 0 <= k < |subs| ==> Placed(all, max, subs[k])
  }

  /** Subline `k` does not end too late. */
  ghost predicate NotLate(all: seq<Cell>, max: nat, subs: seq<Subline>, k: nat)
    requires k < |subs|
  {
    var s := subs[k];
    s.start + s.cells <= |all| && MayReach(all, max, s.start, s.start + s.cells, k == 0)
  }

  /** Subline `k` does not end too early. */
  ghost predicate NotEarly(all: seq<Cell>, max: nat, subs: seq<Subline>, k: nat)
    requires k < |subs|
  {
    var s := subs[k];
    s.start + s.cells <= |all| && MustEnd(all, max, s.start, s.start + s.cells, k == 0)
  }

  /** The sublines are the cells wrapped at `max` columns: one after the other, all the cells, each
      ending neither too late nor, but for the last, too early; the last leaves a column free. */
  ghost predicate Wrapped(all: seq<Cell>, max: nat, subs: seq<Subline>) {
    && subs != [] && Chained(subs, |all|) && AllPlaced(all, max, subs)
    && (forall k: nat :: k < |subs| ==> NotLate(all, max, subs, k))
    && (forall k: nat :: k < |subs| - 1 ==> NotEarly(all, max, subs, k))
    && subs[|subs| - 1].cols < max
  }

  // ------------------------------------------------------------------ lemmas

  lemma {:induction false} WidthConcat(a: seq<Cell>, b: seq<Cell>)
    ensures Width(a + b) == Width(a) + Width(b)
  {
    if a == [] {
      assert a + b == b;
    } else {
      WidthConcat(a[1..], b);
      assert (a + b)[1..] == a[1..] + b;
    }
  }

  lemma WidthSlices(all: seq<Cell>, a: nat, b: nat, c: nat)
    requires a <= b <= c <= |all|
    ensures Width(all[a..c]) == Width(all[a..b]) + Width(all[b..c])
  {
    WidthConcat(all[a..b], all[b..c]);
    assert all[a..c] == all[a..b] + all[b..c];
  }

  lemma WidthOne(all: seq<Cell>, a: nat)
    requires a < |all|
    ensures Width(all[a..a + 1]) == all[a].width
  {
    assert all[a..a + 1] == [all[a]];
    assert Width([all[a]]) == all[a].width + Width([]);
  }

  lemma {:induction false} WidthPositive(cells: seq<Cell>)
    ensures |cells| <= Width(cells) <= 2 * |cells|
  {
    if cells != [] {
      WidthPositive(cells[1..]);
    }
  }

  lemma {:induction false} RightRunIs(all: seq<Cell>, p: nat, b: nat)
    requires p <= b <= |all| && NoBreaks(all, p, b) && (b == |all| || all[b].breaks)
    ensures RightRun(all, p) == Width(all[p..b])
    decreases b - p
  {
    if p < b {
      RightRunIs(all, p + 1, b);
      WidthSlices(all, p, p + 1, b);
      WidthOne(all, p);
    }
  }

  /** No subline boundary falls inside a word that fits in the window: such a word lies wholly in one
      subline. */
  lemma {:induction false} ShortWordWhole(all: seq<Cell>, max: nat, subs: seq<Subline>, a: nat, b: nat) returns (k: nat)
    requires Wrapped(all, max, subs)
    requires a < b <= |all| && NoBreaks(all, a, b)
    requires (a == 0 || all[a - 1].breaks) && (b == |all| || all[b].breaks)
    requires Width(all[a..b]) <= max
    ensures k < |subs| && subs[k].start <= a && b <= subs[k].start + subs[k].cells
  {
    k := FindCell(subs, |all|, a);
    var s, p := subs[k].start, subs[k].start + subs[k].cells;
    if p < b {
      assert NotEarly(all, max, subs, k);
      WordTooWide(all, max, s, a, p, b, k == 0);
    }
  }

  /** A subline that ends inside a word starts with it, and the word does not fit. */
  lemma WordTooWide(all: seq<Cell>, max: nat, s: nat, a: nat, p: nat, b: nat, first: bool)
    requires s <= a < p < b <= |all| && NoBreaks(all, a, b) && AtRunStart(all, a) && AtRunEnd(all, b)
    requires MustEnd(all, max, s, p, first)
    ensures s == a && Width(all[a..b]) > max
  {
    assert AtRunStart(all, a);
    assert !all[p - 1].breaks && !all[p].breaks;
    WidthGrows(all, a, p, b);
  }

  lemma {:induction false} FindCell(subs: seq<Subline>, end: nat, a: nat) returns (k: nat)
    requires Chained(subs, end) && a < end
    ensures k < |subs| && subs[k].start <= a < subs[k].start + subs[k].cells
  {
    var last := |subs| - 1;
    if subs[last].start <= a {
      k := last;
    } else {
      assert last > 0;
      k := FindCell(subs[..last], subs[last].start, a);
    }
  }

  // ------------------------------------------------------------------ one way of wrapping

  /** Two sublines from the same cell, of which neither ends too late: the one that has to end does not
      end before the other. */
  lemma EndsNoSooner(all: seq<Cell>, max: nat, s: nat, p: nat, q: nat, first: bool)
    requires s <= p <= |all| && s <= q <= |all| && Width(all[s..q]) <= max
    requires MustEnd(all, max, s, p, first) && MayReach(all, max, s, q, first)
    ensures q <= p
  {
    if p < q {
      WidthGrows(all, s, p, q);
    }
  }

  /** What holds of subline `k`, from its first cell to the cell behind it. */
  lemma RowIs(all: seq<Cell>, max: nat, subs: seq<Subline>, k: nat)
    requires Wrapped(all, max, subs) && k < |subs|
    ensures var s, p := subs[k].start, subs[k].start + subs[k].cells;
            && p <= |all| && subs[k].cols == Width(all[s..p]) <= max && MayReach(all, max, s, p, k == 0)
            && (k < |subs| - 1 ==> MustEnd(all, max, s, p, k == 0))
            && (k == |subs| - 1 ==> p == |all| && subs[k].cols < max)
  {
    assert Placed(all, max, subs[k]) && NotLate(all, max, subs, k) && (k < |subs| - 1 ==> NotEarly(all, max, subs, k));
    hide Width, MayReach, MustEnd;
  }

  lemma SameEnd(all: seq<Cell>, max: nat, a: seq<Subline>, b: seq<Subline>, k: nat)
    requires Wrapped(all, max, a) && Wrapped(all, max, b) && k < |a| && k < |b| && a[k].start == b[k].start
    ensures a[k] == b[k] && (k == |a| - 1 <==> k == |b| - 1)
  {
    hide *;
    RowIs(all, max, a, k);
    RowIs(all, max, b, k);
    var s, p, q := a[k].start, a[k].start + a[k].cells, b[k].start + b[k].cells;
    if k < |a| - 1 {
      EndsNoSooner(all, max, s, p, q, k == 0);
      if p == |all| {
        FullAtEnd(all, max, s, k == 0);
      }
    }
    if k < |b| - 1 {
      EndsNoSooner(all, max, s, q, p, k == 0);
      if q == |all| {
        FullAtEnd(all, max, s, k == 0);
      }
    }
  }

  lemma FullAtEnd(all: seq<Cell>, max: nat, s: nat, first: bool)
    requires s <= |all| && MustEnd(all, max, s, |all|, first)
    ensures Width(all[s..|all|]) == max
  {
  }

  lemma {:induction false} SameSublines(all: seq<Cell>, max: nat, a: seq<Subline>, b: seq<Subline>, k: nat)
    requires Wrapped(all, max, a) && Wrapped(all, max, b) && k < |a| && k < |b|
    ensures a[..k + 1] == b[..k + 1] && (k == |a| - 1 <==> k == |b| - 1)
  {
    if k > 0 {
      SameSublines(all, max, a, b, k - 1);
      assert a[..k][k - 1] == b[..k][k - 1];
    }
    SameEnd(all, max, a, b, k);
  }

  /** There is one way only to wrap the cells of a line. */
  lemma WrappedOnce(all: seq<Cell>, max: nat, a: seq<Subline>, b: seq<Subline>)
    requires Wrapped(all, max, a) && Wrapped(all, max, b)
    ensures a == b
  {
    if |a| <= |b| {
      SameSublines(all, max, a, b, |a| - 1);
    } else {
      SameSublines(all, max, a, b, |b| - 1);
    }
  }

  /** Of the sublines but the last only the first can be empty, and it is where the line begins with a
      word that finds no room in the window. */
  lemma EmptyRow(all: seq<Cell>, max: nat, subs: seq<Subline>, k: nat)
    requires Wrapped(all, max, subs) && max > 0 && k < |subs| - 1
    ensures subs[k].cells == 0 <==> k == 0 && StartsWord(all, 0) && Room(all, 0) >= max
  {
    RowIs(all, max, subs, k);
    assert k == 0 ==> subs[k].start == 0;
    hide Wrapped, Room;
    assert Width([]) == 0 && all[0..0] == [];
  }

  // ------------------------------------------------------------------ the algorithm

  /** fmt_line's counters: the subline being filled, and the word after it. */
  datatype Cursor = Cursor(slStart: nat, slCols: nat, slCells: nat, wordCols: nat, wordCells: nat) {
    function WordStart(): nat {
      slStart + slCells
    }

    function End(): nat {
      slStart + slCells + wordCells
    }

    /** The pending word joins the subline, with `extra` one-column cells after it. */
    function Joined(extra: nat): Cursor {
      this.(slCols := slCols + wordCols + extra, wordCols := 0, slCells := slCells + wordCells + extra, wordCells := 0)
    }

    /** The pending word grows by one cell of width `w`. */
    function Grown(w: nat): Cursor {
      this.(wordCols := wordCols + w, wordCells := wordCells + 1)
    }
  }

  /** The current subline and the pending word after it are what the counters say. */
  ghost predicate Counted(all: seq<Cell>, max: nat, c: Cursor) {
    && c.End() <= |all|
    && Placed(all, max, Subline(c.slStart, c.slCells, c.slCols))
    && c.wordCols == Width(all[c.WordStart()..c.End()])
    && NoBreaks(all, c.WordStart(), c.End())
  }

  /** The pending word is the start of a word; when empty, it may also be that the next token ends
      the word before it. */
  ghost predicate Fresh(all: seq<Cell>, c: Cursor) {
    AtRunStart(all, c.WordStart()) || (c.wordCells == 0 && AtRunEnd(all, c.WordStart()))
  }

  /** At the end of the line one column more must stay free. */
  ghost function Slack(all: seq<Cell>, c: Cursor): nat {
    if c.End() == |all| then 1 else 0
  }

  /** The sublines so far, up to cell `end`, none of them ending too late or too early. */
  ghost predicate Committed(all: seq<Cell>, max: nat, subs: seq<Subline>, end: nat) {
    && Chained(subs, end) && AllPlaced(all, max, subs)
    && (forall k: nat :: k < |subs| ==> NotLate(all, max, subs, k) && NotEarly(all, max, subs, k))
  }

  /** The subline being filled does not go too far yet, and only the first one is empty before a word. */
  ghost predicate Going(all: seq<Cell>, max: nat, c: Cursor, first: bool) {
    && c.WordStart() <= |all| && MayReach(all, max, c.slStart, c.WordStart(), first)
    && (c.slCells == 0 ==> first || AtRunEnd(all, c.WordStart()))
  }

  /** The tokens still to come give the cells after `p`. */
  ghost predicate Ahead(tokens: seq<Token>, i: nat, all: seq<Cell>, p: nat) {
    i <= |tokens| && p <= |all| && all[p..] == CellsOf(tokens[i..])
  }

  lemma NextToken(tokens: seq<Token>, i: nat, all: seq<Cell>, p: nat)
    requires Ahead(tokens, i, all, p)
    ensures i == |tokens| ==> p == |all|
    ensures i < |tokens| && tokens[i].Escape? ==> Ahead(tokens, i + 1, all, p)
    ensures i < |tokens| && tokens[i].Break? ==>
              p < |all| && all[p] == Cell(tokens[i].glyph, 1, true) && Ahead(tokens, i + 1, all, p + 1)
    ensures i < |tokens| && tokens[i].Glyph? ==>
              p < |all| && all[p] == Cell(tokens[i].glyph, tokens[i].width, false) && Ahead(tokens, i + 1, all, p + 1)
  {
    if i < |tokens| {
      assert tokens[i..][1..] == tokens[i + 1..];
      if !tokens[i].Escape? {
        assert all[p + 1..] == all[p..][1..];
      }
    }
  }

  /** Width of the cells of a stretch, a further stretch, and a last cell. */
  lemma WidthJoined(all: seq<Cell>, a: nat, b: nat, c: nat)
    requires a <= b <= c <= |all|
    ensures Width(all[a..c]) == Width(all[a..b]) + Width(all[b..c])
    ensures c < |all| ==> Width(all[a..c + 1]) == Width(all[a..c]) + all[c].width
  {
    WidthSlices(all, a, b, c);
    if c < |all| {
      WidthSlices(all, a, c, c + 1);
      WidthOne(all, c);
    }
  }

  lemma WidthGrows(all: seq<Cell>, a: nat, b: nat, c: nat)
    requires a <= b < c <= |all|
    ensures Width(all[a..c]) >= Width(all[a..b]) + all[b].width
  {
    WidthSlices(all, a, b, c);
    WidthSlices(all, b, b + 1, c);
    WidthOne(all, b);
  }

  lemma JoinCounted(all: seq<Cell>, max: nat, c: Cursor, extra: nat)
    requires Counted(all, max, c) && extra <= 1 && c.slCols + c.wordCols + extra <= max
    requires extra == 1 ==> c.End() < |all| && all[c.End()].breaks && all[c.End()].width == 1
    requires AtRunEnd(all, c.End()) || extra == 1
    ensures Counted(all, max, c.Joined(extra)) && Fresh(all, c.Joined(extra))
  {
    hide Width, AtRunEnd;
    WidthJoined(all, c.slStart, c.WordStart(), c.End());
    EmptyWidth(all, c.End() + extra);
    assert extra == 0 ==> c.End() + extra == c.End();
  }

  /** What the pending word needs, once it is complete. */
  lemma RoomIs(all: seq<Cell>, max: nat, c: Cursor)
    requires Counted(all, max, c) && AtRunEnd(all, c.End())
    ensures Room(all, c.WordStart()) == c.wordCols + Slack(all, c)
  {
    RightRunIs(all, c.WordStart(), c.End());
  }

  /** A word that finds room may join the subline. */
  lemma JoinGoing(all: seq<Cell>, max: nat, c: Cursor, extra: nat, first: bool)
    requires Counted(all, max, c) && Going(all, max, c, first) && AtRunEnd(all, c.End())
    requires extra == (if c.End() < |all| then 1 else 0) && c.slCols + c.wordCols + Slack(all, c) < max
    ensures Going(all, max, c.Joined(extra), first)
  {
    RoomIs(all, max, c);
    hide Width, Room, RightRun;
    assert c.slCols == Width(all[c.slStart..c.WordStart()]);
  }

  lemma GrowGoing(all: seq<Cell>, max: nat, c: Cursor, w: nat, first: bool)
    requires Going(all, max, c, first)
    ensures Going(all, max, c.Grown(w), first)
  {
  }

  lemma EmptyWidth(all: seq<Cell>, p: nat)
    requires p <= |all|
    ensures Width(all[p..p]) == 0
  {
  }

  lemma GrowCounted(all: seq<Cell>, max: nat, c: Cursor)
    requires Counted(all, max, c) && Fresh(all, c) && c.End() < |all| && !all[c.End()].breaks
    ensures Counted(all, max, c.Grown(all[c.End()].width)) && Fresh(all, c.Grown(all[c.End()].width))
  {
    WidthSlices(all, c.WordStart(), c.End(), c.End() + 1);
    WidthOne(all, c.End());
  }

  lemma CommitOne(all: seq<Cell>, max: nat, subs: seq<Subline>, s: Subline)
    requires Committed(all, max, subs, s.start) && Placed(all, max, s)
    requires MustEnd(all, max, s.start, s.start + s.cells, subs == [])
    requires MayReach(all, max, s.start, s.start + s.cells, subs == [])
    ensures Committed(all, max, subs + [s], s.start + s.cells)
  {
    KeptEnds(all, max, subs, s);
    hide Placed, MustEnd, MayReach, NotLate, NotEarly;
  }

  /** A further subline leaves those before it as they end. */
  lemma KeptEnds(all: seq<Cell>, max: nat, subs: seq<Subline>, s: Subline)
    requires s.start + s.cells <= |all|
    ensures forall k: nat :: k < |subs| ==>
              && (NotLate(all, max, subs + [s], k) <==> NotLate(all, max, subs, k))
              && (NotEarly(all, max, subs + [s], k) <==> NotEarly(all, max, subs, k))
    ensures NotLate(all, max, subs + [s], |subs|) <==>
            MayReach(all, max, s.start, s.start + s.cells, subs == [])
    ensures NotEarly(all, max, subs + [s], |subs|) <==>
            MustEnd(all, max, s.start, s.start + s.cells, subs == [])
  {
    hide MustEnd, MayReach;
  }

  /** The pending word that finds no room may start a subline. */
  lemma WordMoves(all: seq<Cell>, max: nat, c: Cursor, first: bool)
    requires c.wordCols > 0 && Counted(all, max, c) && Fresh(all, c) && AtRunEnd(all, c.End())
    requires c.slCols + c.wordCols + Slack(all, c) >= max && Going(all, max, c, first)
    ensures Placed(all, max, Subline(c.slStart, c.slCells, c.slCols))
    ensures MustEnd(all, max, c.slStart, c.WordStart(), first) && MayReach(all, max, c.slStart, c.WordStart(), first)
    ensures var word := Cursor(c.WordStart(), c.wordCols, c.wordCells, 0, 0);
            Going(all, max, word, false) && Overlong(all, max, word)
  {
    RoomIs(all, max, c);
    EmptyWidth(all, c.End());
    WordLeft(all, max, c);
    hide Room, RightRun, Width, Fresh;
  }

  /** A pending word is a word, from its start to its end. */
  lemma WordLeft(all: seq<Cell>, max: nat, c: Cursor)
    requires c.wordCols > 0 && Counted(all, max, c) && Fresh(all, c)
    ensures StartsWord(all, c.WordStart()) && !AtRunEnd(all, c.WordStart()) && c.wordCells > 0
  {
    EmptyWidth(all, c.WordStart());
    hide Width;
    assert c.wordCells == 0 ==> c.WordStart() == c.End();
  }

  /** A subline that is to be split is the rest of a word, or exactly full. */
  ghost predicate Overlong(all: seq<Cell>, max: nat, c: Cursor)
    requires c.End() <= |all|
  {
    c.slCols == max || NoBreaks(all, c.slStart, c.End())
  }

  /** Cutting off a chunk is right, and what remains is again fit to be split. */
  lemma ChunkCut(all: seq<Cell>, max: nat, c: Cursor, safeCells: nat, safeCols: nat, first: bool)
    requires c.wordCells == 0 && c.End() <= |all| && AtRunEnd(all, c.End()) && Going(all, max, c, first)
    requires c.slCols == Width(all[c.slStart..c.End()]) >= max && Overlong(all, max, c)
    requires 0 < safeCells <= c.slCells && safeCols == Width(all[c.slStart..c.slStart + safeCells]) <= max
    requires safeCells < c.slCells ==> safeCols + all[c.slStart + safeCells].width > max
    requires c.slCols <= max ==> safeCells == c.slCells
    ensures MustEnd(all, max, c.slStart, c.slStart + safeCells, first)
    ensures MayReach(all, max, c.slStart, c.slStart + safeCells, first)
    ensures var rest := Cursor(c.slStart + safeCells, c.slCols - safeCols, c.slCells - safeCells, 0, 0);
            && rest.slCols == Width(all[rest.slStart..c.End()])
            && Going(all, max, rest, false) && (rest.slCells > 0 ==> Overlong(all, max, rest))
  {
    var p := c.slStart + safeCells;
    hide Width, RightRun, Room;
    WidthSlices(all, c.slStart, p, c.End());
    if safeCells == c.slCells {
      EmptyWidth(all, p);
    }
  }

  lemma StartOfLine(tokens: seq<Token>, max: nat)
    ensures var all, c := CellsOf(tokens), Cursor(0, 0, 0, 0, 0);
            Ahead(tokens, 0, all, c.End()) && Counted(all, max, c) && Fresh(all, c) && Committed(all, max, [], 0)
            && Going(all, max, c, true)
  {
    assert tokens[0..] == tokens && CellsOf(tokens)[0..] == CellsOf(tokens);
  }

  lemma LastPlaced(all: seq<Cell>, max: nat, subs: seq<Subline>, s: Subline)
    requires Committed(all, max, subs, s.start) && Placed(all, max, s) && s.cols < max
    requires s.start + s.cells == |all| && MayReach(all, max, s.start, |all|, subs == [])
    ensures Wrapped(all, max, subs + [s])
  {
    KeptEnds(all, max, subs, s);
    hide Placed, MustEnd, MayReach, NotLate, NotEarly;
  }

  /** The rows of the window that show a line: its sublines, or where there are none the whole line. */
  ghost function Rows(all: seq<Cell>, subs: seq<Subline>): seq<Subline> {
    if subs == [] then [Subline(0, |all|, Width(all))] else subs
  }

  lemma EndOfLine(tokens: seq<Token>, max: nat, subs: seq<Subline>, c: Cursor)
    requires var all := CellsOf(tokens);
             && Ahead(tokens, |tokens|, all, c.End()) && Counted(all, max, c)
             && Committed(all, max, subs, c.slStart) && Going(all, max, c, subs == [])
    requires c.wordCells == 0 && c.slCols < max
    ensures var all, last := CellsOf(tokens), Subline(c.slStart, c.slCells, c.slCols);
            && all[..c.End()] == all
            && Wrapped(all, max, subs + [last]) && (subs == [] ==> [last] == Rows(all, []))
  {
    var all := CellsOf(tokens);
    hide *;
    AllTaken(tokens, all, c.End());
    CountedLine(all, max, c);
    GoneToEnd(all, max, c, subs == []);
    LastPlaced(all, max, subs, Subline(c.slStart, c.slCells, c.slCols));
    CommittedStart(all, max, subs, c.slStart);
    OneRow(all);
  }

  lemma OneRow(all: seq<Cell>)
    ensures Rows(all, []) == [Subline(0, |all|, Width(all))]
  {
  }

  lemma GoneToEnd(all: seq<Cell>, max: nat, c: Cursor, first: bool)
    requires Going(all, max, c, first) && c.wordCells == 0
    ensures c.slStart + c.slCells == c.End() <= |all| && MayReach(all, max, c.slStart, c.End(), first)
  {
  }

  /** When no token is left, the cells so far are all of them. */
  lemma AllTaken(tokens: seq<Token>, all: seq<Cell>, p: nat)
    requires Ahead(tokens, |tokens|, all, p)
    ensures p == |all| && all[..p] == all && all[0..p] == all
  {
    NextToken(tokens, |tokens|, all, p);
    hide *;
  }

  lemma CountedLine(all: seq<Cell>, max: nat, c: Cursor)
    requires Counted(all, max, c) && c.wordCells == 0
    ensures c.End() == c.slStart + c.slCells <= |all|
    ensures Placed(all, max, Subline(c.slStart, c.slCells, c.slCols)) && c.slCols == Width(all[c.slStart..c.End()])
  {
    hide Width;
  }

  lemma CommittedStart(all: seq<Cell>, max: nat, subs: seq<Subline>, end: nat)
    requires Committed(all, max, subs, end)
    ensures subs == [] ==> end == 0
  {
  }

  class View {
    var cmplxBuf: seq<Cell>    // display cells of the line
    var sublines: seq<Subline> // cur.sl_cc, cur.sl_cells and cur.sl_cols up to cur.sl_idx

    constructor () {
      cmplxBuf, sublines := [], [];
    }

    /** The inner scanning loop: takes up tokens until one forces a line break or the line ends. */
    method Fill(tokens: seq<Token>, max: nat, i0: nat, c0: Cursor, ghost all: seq<Cell>) returns (i: nat, c: Cursor)
      requires max >= 2 && i0 < |tokens| && c0.wordCells == c0.wordCols == 0 && c0.slCols < max
      requires Ahead(tokens, i0, all, c0.End()) && cmplxBuf == all[..c0.End()]
      requires Counted(all, max, c0) && Fresh(all, c0) && Going(all, max, c0, sublines == [])
      modifies this`cmplxBuf
      ensures Ahead(tokens, i, all, c.End()) && cmplxBuf == all[..c.End()]
      ensures Counted(all, max, c) && Fresh(all, c) && Going(all, max, c, sublines == []) && c.slStart == c0.slStart
      ensures i > i0 && AtRunEnd(all, c.End())
      ensures (c.wordCells == 0 && c.slCols < max) || c.slCols + c.wordCols + Slack(all, c) >= max
    {
      hide Counted, Fresh, Going, CellsOf;
      i, c := i0, c0;
      while true
        invariant Ahead(tokens, i, all, c.End()) && cmplxBuf == all[..c.End()]
        invariant Counted(all, max, c) && Fresh(all, c) && Going(all, max, c, sublines == [])
        invariant c.slStart == c0.slStart
        invariant i >= i0 && (i == i0 ==> c == c0)
        decreases |tokens| - i
      {
        NextToken(tokens, i, all, c.End());
        if i == |tokens| {
          if c.slCols + c.wordCols + 1 > max - 1 {
            break;
          }
          JoinGoing(all, max, c, 0, sublines == []);
          JoinCounted(all, max, c, 0);
          c := c.Joined(0);
          break;
        }
        match tokens[i]
        case Escape =>
          i := i + 1;
        case Break(g) =>
          if c.slCols + c.wordCols > max - 1 {
            break;
          }
          JoinGoing(all, max, c, 1, sublines == []);
          JoinCounted(all, max, c, 1);
          cmplxBuf := cmplxBuf + [Cell(g, 1, true)];
          i, c := i + 1, c.Joined(1);
        case Glyph(g, w) =>
          GrowCounted(all, max, c);
          GrowGoing(all, max, c, w, sublines == []);
          cmplxBuf := cmplxBuf + [Cell(g, w, false)];
          i, c := i + 1, c.Grown(w);
      }
    }

    /** How much of an overlong subline goes on one line: as many cells as fit. */
    method TakeChunk(max: nat, start: nat, cells: nat) returns (safeCells: nat, safeCols: nat)
      requires max >= 2 && cells > 0 && start + cells <= |cmplxBuf|
      ensures 0 < safeCells <= cells && safeCols == Width(cmplxBuf[start..start + safeCells]) <= max
      ensures safeCells < cells ==> safeCols + cmplxBuf[start + safeCells].width > max
      ensures Width(cmplxBuf[start..start + cells]) <= max ==> safeCells == cells
    {
      hide Width;
      safeCells, safeCols := 0, 0;
      EmptyWidth(cmplxBuf, start);
      while safeCols < max && safeCells < cells
        invariant safeCells <= cells && safeCols == Width(cmplxBuf[start..start + safeCells]) <= max
        invariant safeCols > 0 ==> safeCells > 0
      {
        var cw := cmplxBuf[start + safeCells].width;
        WidthJoined(cmplxBuf, start, start, start + safeCells);
        if safeCols + cw > max {
          break;
        }
        safeCols := safeCols + cw;
        safeCells := safeCells + 1;
      }
      if safeCells < cells {
        WidthGrows(cmplxBuf, start, start + safeCells, start + cells);
      }
    }

    /** Ends the current subline before the pending word, which starts the next one. */
    method CommitBeforeWord(max: nat, c0: Cursor, ghost all: seq<Cell>) returns (c: Cursor)
      requires c0.wordCols > 0 && Counted(all, max, c0) && Fresh(all, c0) && AtRunEnd(all, c0.End())
      requires c0.slCols + c0.wordCols + Slack(all, c0) >= max
      requires Committed(all, max, sublines, c0.slStart) && Going(all, max, c0, sublines == [])
      modifies this`sublines
      ensures Committed(all, max, sublines, c.slStart) && sublines != []
      ensures c == Cursor(c0.WordStart(), c0.wordCols, c0.wordCells, 0, 0)
      ensures Going(all, max, c, false) && Overlong(all, max, c)
    {
      WordMoves(all, max, c0, sublines == []);
      hide Committed, Counted, Fresh, Going, MustEnd, MayReach;
      CommitOne(all, max, sublines, Subline(c0.slStart, c0.slCells, c0.slCols));
      sublines := sublines + [Subline(c0.slStart, c0.slCells, c0.slCols)];
      c := Cursor(c0.WordStart(), c0.wordCols, c0.wordCells, 0, 0);
    }

    /** Cuts a subline that fills the line or exceeds it. */
    method SplitLong(max: nat, c0: Cursor, ghost all: seq<Cell>) returns (c: Cursor)
      requires max >= 2 && c0.wordCells == c0.wordCols == 0 && c0.End() <= |all| && cmplxBuf == all[..c0.End()]
      requires c0.slCols == Width(all[c0.slStart..c0.End()]) && AtRunEnd(all, c0.End())
      requires Committed(all, max, sublines, c0.slStart) && Going(all, max, c0, sublines == [])
      requires c0.slCols >= max ==> Overlong(all, max, c0)
      modifies this`sublines
      ensures Committed(all, max, sublines, c.slStart) && Going(all, max, c, sublines == [])
      ensures c.wordCells == c.wordCols == 0 && c.End() == c0.End() && c.slCols == Width(all[c.slStart..c.End()]) < max
      ensures old(sublines) <= sublines && (c0.slCols >= max ==> sublines != [])
    {
      hide Committed, Going, MustEnd, MayReach, Overlong, Width, AtRunEnd;
      c := c0;
      while c.slCols > max - 1
        invariant c.wordCells == c.wordCols == 0 && c.End() == c0.End() && c.slCols == Width(all[c.slStart..c.End()])
        invariant Committed(all, max, sublines, c.slStart) && Going(all, max, c, sublines == [])
        invariant c.slCols >= max ==> Overlong(all, max, c)
        invariant old(sublines) <= sublines && (c == c0 || sublines != [])
        decreases c.slCells
      {
        WidthPositive(all[c.slStart..c.End()]);
        var safeCells, safeCols := TakeChunk(max, c.slStart, c.slCells);
        assert cmplxBuf[c.slStart..c.slStart + safeCells] == all[c.slStart..c.slStart + safeCells];
        assert cmplxBuf[c.slStart..c.slStart + c.slCells] == all[c.slStart..c.End()];
        ChunkCut(all, max, c, safeCells, safeCols, sublines == []);
        CommitOne(all, max, sublines, Subline(c.slStart, safeCells, safeCols));
        sublines := sublines + [Subline(c.slStart, safeCells, safeCols)];
        c := Cursor(c.slStart + safeCells, c.slCols - safeCols, c.slCells - safeCells, 0, 0);
      }
    }

    /** The line handling after the scanning loop: commit before a pending word, then split. */
    method BreakLine(max: nat, c0: Cursor, ghost all: seq<Cell>) returns (c: Cursor)
      requires max >= 2 && Counted(all, max, c0) && Fresh(all, c0) && AtRunEnd(all, c0.End())
      requires cmplxBuf == all[..c0.End()] && Committed(all, max, sublines, c0.slStart)
      requires Going(all, max, c0, sublines == [])
      requires (c0.wordCells == 0 && c0.slCols < max) || c0.slCols + c0.wordCols + Slack(all, c0) >= max
      modifies this`sublines
      ensures Committed(all, max, sublines, c.slStart) && c.End() == c0.End()
      ensures c.wordCells == c.wordCols == 0 && c.slCols < max
      ensures Counted(all, max, c) && Fresh(all, c) && Going(all, max, c, sublines == [])
    {
      hide Committed, Going, MustEnd, MayReach;
      c := c0;
      if c.wordCols > 0 {
        c := CommitBeforeWord(max, c, all);
      }
      c := SplitLong(max, c, all);
    }

    /** fmt_line with wrapping on: `cmplxBuf` gets the cells of the line, and either the line fits
        on one row and there are no sublines, or the sublines show it cut into pieces. */
    method FmtLine(tokens: seq<Token>, max: nat)
      requires max >= 2
      modifies this
      ensures cmplxBuf == CellsOf(tokens)
      ensures Wrapped(cmplxBuf, max, Rows(cmplxBuf, sublines)) && |sublines| != 1
    {
      ghost var all := CellsOf(tokens);
      cmplxBuf, sublines := [], [];
      var i, c := 0, Cursor(0, 0, 0, 0, 0);
      StartOfLine(tokens, max);
      hide CellsOf, Width, Committed, Counted, Fresh, Going, Overlong, Ahead, Wrapped;
      while i < |tokens|
        invariant Ahead(tokens, i, all, c.End()) && cmplxBuf == all[..c.End()]
        invariant c.wordCells == c.wordCols == 0 && c.slCols < max
        invariant Counted(all, max, c) && Fresh(all, c) && Going(all, max, c, sublines == [])
        invariant Committed(all, max, sublines, c.slStart)
        decreases |tokens| - i
      {
        i, c := Fill(tokens, max, i, c, all);
        c := BreakLine(max, c, all);
      }
      EndOfLine(tokens, max, sublines, c);
      if sublines != [] {
        sublines := sublines + [Subline(c.slStart, c.slCells, c.slCols)];
      }
    }
  }
}
