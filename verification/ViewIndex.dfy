/** View's lazy line index: a table of line starts that grows as a side effect of reading, and the
    random access that relies on it. */
module ViewIndex {

  const LINE_TBL_INCR := 1024
  const PAD_COLS := 4096

  // ------------------------------------------------------------------ specification

  /** The line starts at or before position `p`: 0, and every position just after a newline. */
  ghost function Starts(buf: string, p: nat): (s: seq<nat>)
    requires p <= |buf|
    ensures |s| > 0 && s[0] == 0
  {
    if p == 0 then [0]
    else Starts(buf, p - 1) + (if buf[p - 1] == '\n' then [p] else [])
  }

  /** The number of newlines before position `p`. */
  ghost function Newlines(buf: string, p: nat): nat
    requires p <= |buf|
  {
    |Starts(buf, p)| - 1
  }

  ghost predicate IsStart(buf: string, p: nat) {
    p <= |buf| && (p == 0 || buf[p - 1] == '\n')
  }

  /** The text of a line from `p` on: up to the next newline, carriage returns removed. */
  ghost function Text(buf: string, p: nat): string
    requires p <= |buf|
    decreases |buf| - p
  {
    if p == |buf| || buf[p] == '\n' then ""
    else if buf[p] == '\r' then Text(buf, p + 1)
    else [buf[p]] + Text(buf, p + 1)
  }

  /** Where the line that `p` lies in ends: at its newline, or at the end of the buffer. */
  ghost function LineEnd(buf: string, p: nat): (e: nat)
    requires p <= |buf|
    ensures p <= e <= |buf| && (e < |buf| ==> buf[e] == '\n')
    decreases |buf| - p
  {
    if p == |buf| || buf[p] == '\n' then p else LineEnd(buf, p + 1)
  }

  /** `p` is the first line start at or after `t`. */
  ghost predicate FirstStart(buf: string, t: nat, p: nat) {
    IsStart(buf, p) && t <= p && forall q: nat :: t <= q < p ==> !IsStart(buf, q)
  }

  // ------------------------------------------------------------------ lemmas

  lemma StartsStep(buf: string, p: nat)
    requires p < |buf|
    ensures Starts(buf, p + 1) == Starts(buf, p) + if buf[p] == '\n' then [p + 1] else []
  {
  }

  lemma {:induction false} StartsPrefix(buf: string, p: nat, q: nat)
    requires p <= q <= |buf|
    ensures Starts(buf, p) <= Starts(buf, q)
    decreases q
  {
    if p < q {
      StartsPrefix(buf, p, q - 1);
    }
  }

  /** The starts are strictly increasing, are all line starts, and leave none out. */
  lemma {:induction false} StartsExact(buf: string, p: nat)
    requires p <= |buf|
    ensures var s := Starts(buf, p);
            && (forall i :: 0 <= i < |s| ==> IsStart(buf, s[i]) && s[i] <= p)
            && (forall i, j :: 0 <= i < j < |s| ==> s[i] < s[j])
            && (forall q: nat :: IsStart(buf, q) && q <= p ==> q in s)
  {
    if p > 0 {
      StartsExact(buf, p - 1);
      var s, t := Starts(buf, p - 1), Starts(buf, p);
      assert IsStart(buf, p) ==> t[|t| - 1] == p;
      forall q: nat | IsStart(buf, q) && q <= p ensures q in t {
        assert q < p ==> q in s;
      }
    }
  }

  /** Between `p` and `q` no line starts exactly when both have seen the same newlines. */
  lemma {:induction false} SameNewlines(buf: string, p: nat, q: nat)
    requires p <= q <= |buf| && forall k :: p <= k < q ==> buf[k] != '\n'
    ensures Starts(buf, q) == Starts(buf, p)
    decreases q
  {
    if p < q {
      SameNewlines(buf, p, q - 1);
    }
  }

  /** Carriage returns leave the text and the end of a line as they are. */
  lemma {:induction false} SkipReturns(buf: string, p: nat, q: nat)
    requires p <= q <= |buf| && forall k :: p <= k < q ==> buf[k] == '\r'
    ensures Text(buf, p) == Text(buf, q) && LineEnd(buf, p) == LineEnd(buf, q)
    decreases q - p
  {
    if p < q {
      SkipReturns(buf, p + 1, q);
    }
  }

  lemma TextAt(buf: string, p: nat)
    requires p < |buf| && buf[p] != '\r'
    ensures buf[p] == '\n' ==> Text(buf, p) == "" && LineEnd(buf, p) == p
    ensures buf[p] != '\n' ==> Text(buf, p) == [buf[p]] + Text(buf, p + 1) && LineEnd(buf, p) == LineEnd(buf, p + 1)
  {
  }

  /** `read` is what a reader that started at `start` has of its line when it stands at `p`. */
  ghost predicate Remains(buf: string, start: nat, read: string, p: nat)
    requires start <= |buf| && p <= |buf|
  {
    read + Text(buf, p) == Text(buf, start) && LineEnd(buf, p) == LineEnd(buf, start)
  }

  lemma RemainsStart(buf: string, start: nat, p: nat)
    requires start <= p <= |buf| && forall k :: start <= k < p ==> buf[k] == '\r'
    ensures Remains(buf, start, "", p)
  {
    SkipReturns(buf, start, p);
  }

  /** One more character of the line has been read, and the returns behind it. */
  lemma RemainsStep(buf: string, start: nat, read: string, p: nat, q: nat)
    requires start <= |buf| && p < q <= |buf| && Remains(buf, start, read, p)
    requires buf[p] != '\r' && buf[p] != '\n' && forall k :: p < k < q ==> buf[k] == '\r'
    ensures Remains(buf, start, read + [buf[p]], q)
  {
    TextAt(buf, p);
    SkipReturns(buf, p + 1, q);
    hide Text, LineEnd;
    assert read + [buf[p]] + Text(buf, q) == read + ([buf[p]] + Text(buf, q));
  }

  lemma RemainsNewline(buf: string, start: nat, read: string, p: nat)
    requires start <= |buf| && p < |buf| && Remains(buf, start, read, p) && buf[p] == '\n'
    ensures read == Text(buf, start) && LineEnd(buf, start) == p
  {
    TextAt(buf, p);
    hide Text, LineEnd;
  }

  lemma RemainsLong(buf: string, start: nat, read: string, p: nat)
    requires start <= |buf| && p < |buf| && Remains(buf, start, read, p) && buf[p] != '\n' && buf[p] != '\r'
    ensures |Text(buf, start)| > |read| && read == Text(buf, start)[..|read|]
  {
    TextAt(buf, p);
    hide Text, LineEnd;
  }

  lemma RemainsEnd(buf: string, start: nat, read: string)
    requires start <= |buf| && Remains(buf, start, read, |buf|)
    ensures read == Text(buf, start) && LineEnd(buf, start) == |buf|
  {
  }

  /** No newline between the start of a line and its end. */
  lemma {:induction false} LineUnbroken(buf: string, p: nat)
    requires p <= |buf|
    ensures forall k :: p <= k < LineEnd(buf, p) ==> buf[k] != '\n'
    decreases |buf| - p
  {
    if p < |buf| && buf[p] != '\n' {
      LineUnbroken(buf, p + 1);
    }
  }

  lemma StartNumber(buf: string, max: nat, line: nat)
    requires max <= |buf| && line < |Starts(buf, max)|
    ensures var s := Starts(buf, max)[line]; s <= max && Newlines(buf, s) == line
  {
    var s := Starts(buf, max)[line];
    StartsExact(buf, max);
    StartsExact(buf, s);
    StartsPrefix(buf, s, max);
    assert s in Starts(buf, s);
  }

  /** The start after a line that ends in a newline is the next entry of the table. */
  lemma NextStart(buf: string, max: nat, line: nat)
    requires max <= |buf| && line < |Starts(buf, max)|
    requires Starts(buf, max)[line] <= |buf| && LineEnd(buf, Starts(buf, max)[line]) < max
    ensures line + 1 < |Starts(buf, max)| && Starts(buf, max)[line + 1] == LineEnd(buf, Starts(buf, max)[line]) + 1
  {
    var s := Starts(buf, max)[line];
    var e := LineEnd(buf, s);
    StartNumber(buf, max, line);
    LineUnbroken(buf, s);
    SameNewlines(buf, s, e);
    StartsPrefix(buf, e + 1, max);
  }

  /** Where no line starts behind `p` before `q`, `q` is the first start for every target between. */
  lemma NextIsFirst(buf: string, t: nat, p: nat, q: nat)
    requires p < q <= |buf| && buf[q - 1] == '\n' && forall k :: p <= k < q - 1 ==> buf[k] != '\n'
    ensures p < t <= q ==> FirstStart(buf, t, q)
  {
  }

  const THREE_LINES := "a\nb\nc\n"

  lemma ThreeLinesStarts()
    ensures Starts(THREE_LINES, 2) == [0, 2] && Starts(THREE_LINES, 4) == [0, 2, 4]
    ensures Starts(THREE_LINES, 6) == [0, 2, 4, 6]
  {
    StartsStep(THREE_LINES, 0);
    StartsStep(THREE_LINES, 1);
    StartsStep(THREE_LINES, 2);
    StartsStep(THREE_LINES, 3);
    StartsStep(THREE_LINES, 4);
    StartsStep(THREE_LINES, 5);
    assert Starts(THREE_LINES, 0) == [0];
    hide Starts;
  }

  // ------------------------------------------------------------------ the buffer split at newlines

  /** The first `p` characters split at newlines. */
  ghost function Lines(buf: string, p: nat): (ls: seq<string>)
    requires p <= |buf|
    ensures |ls| > 0
  {
    if p == 0 then [""]
    else
      var ls := Lines(buf, p - 1);
      if buf[p - 1] == '\n' then ls + [""] else ls[..|ls| - 1] + [ls[|ls| - 1] + [buf[p - 1]]]
  }

  ghost function NoReturns(s: string): string {
    if s == "" then "" else (if s[0] == '\r' then "" else [s[0]]) + NoReturns(s[1..])
  }

  /** Where the i-th piece ends. */
  ghost function PieceEnd(buf: string, p: nat, i: nat): int
    requires p <= |buf| && i < |Starts(buf, p)|
  {
    if i + 1 < |Starts(buf, p)| then Starts(buf, p)[i + 1] - 1 else p
  }

  lemma {:induction false} AsManyLines(buf: string, p: nat)
    requires p <= |buf|
    ensures |Lines(buf, p)| == |Starts(buf, p)|
  {
    if p > 0 {
      AsManyLines(buf, p - 1);
    }
  }

  /** Each piece lies between its line start and the next one. */
  lemma {:induction false} LinesAre(buf: string, p: nat, i: nat)
    requires p <= |buf| && i < |Starts(buf, p)| == |Lines(buf, p)|
    ensures Starts(buf, p)[i] <= PieceEnd(buf, p, i) <= p
    ensures Lines(buf, p)[i] == buf[Starts(buf, p)[i]..PieceEnd(buf, p, i)]
    decreases p
  {
    if p > 0 {
      AsManyLines(buf, p - 1);
      if i < |Starts(buf, p - 1)| {
        LinesAre(buf, p - 1, i);
        LineGrows(buf, p, i);
      }
    }
  }

  lemma LinesStep(buf: string, p: nat)
    requires 0 < p <= |buf|
    ensures var ls := Lines(buf, p - 1);
            Lines(buf, p) == if buf[p - 1] == '\n' then ls + [""] else ls[..|ls| - 1] + [ls[|ls| - 1] + [buf[p - 1]]]
  {
  }

  /** A piece with a start behind it is finished. */
  lemma LineStays(buf: string, p: nat, i: nat)
    requires 0 < p <= |buf| && i < |Starts(buf, p - 1)| == |Lines(buf, p - 1)|
    requires i + 1 < |Starts(buf, p - 1)| || buf[p - 1] == '\n'
    ensures i < |Starts(buf, p)| == |Lines(buf, p)|
    ensures Starts(buf, p)[i] == Starts(buf, p - 1)[i] && PieceEnd(buf, p, i) == PieceEnd(buf, p - 1, i)
    ensures Lines(buf, p)[i] == Lines(buf, p - 1)[i]
  {
    StartsStep(buf, p - 1);
    LinesStep(buf, p);
    hide Starts, Lines;
  }

  /** The last piece takes up the next character. */
  lemma LastLineGrows(buf: string, p: nat)
    requires 0 < p <= |buf| && |Starts(buf, p - 1)| == |Lines(buf, p - 1)| && buf[p - 1] != '\n'
    ensures var i := |Starts(buf, p - 1)| - 1;
            && Starts(buf, p) == Starts(buf, p - 1) && |Lines(buf, p)| == i + 1
            && Lines(buf, p)[i] == Lines(buf, p - 1)[i] + [buf[p - 1]]
  {
    StartsStep(buf, p - 1);
    LinesStep(buf, p);
    hide Starts, Lines;
  }

  lemma LineGrows(buf: string, p: nat, i: nat)
    requires 0 < p <= |buf| && i < |Starts(buf, p - 1)| == |Lines(buf, p - 1)|
    requires Starts(buf, p - 1)[i] <= PieceEnd(buf, p - 1, i) <= p - 1
    requires Lines(buf, p - 1)[i] == buf[Starts(buf, p - 1)[i]..PieceEnd(buf, p - 1, i)]
    ensures i < |Starts(buf, p)| == |Lines(buf, p)| && Starts(buf, p)[i] <= PieceEnd(buf, p, i) <= p
    ensures Lines(buf, p)[i] == buf[Starts(buf, p)[i]..PieceEnd(buf, p, i)]
  {
    hide Starts, Lines;
    if i + 1 < |Starts(buf, p - 1)| || buf[p - 1] == '\n' {
      LineStays(buf, p, i);
    } else {
      LastLineGrows(buf, p);
      SliceGrows(buf, Starts(buf, p - 1)[i], p);
    }
  }

  lemma SliceGrows(buf: string, s: nat, p: nat)
    requires s < p <= |buf|
    ensures buf[s..p] == buf[s..p - 1] + [buf[p - 1]]
  {
  }

  lemma {:induction false} TextIs(buf: string, p: nat)
    requires p <= |buf|
    ensures Text(buf, p) == NoReturns(buf[p..LineEnd(buf, p)])
    decreases |buf| - p
  {
    if p < |buf| && buf[p] != '\n' {
      TextIs(buf, p + 1);
      assert buf[p..LineEnd(buf, p)][1..] == buf[p + 1..LineEnd(buf, p)];
    }
  }

  /** Reading from the n-th line start gives the n-th piece of the buffer, split at newlines, with
      carriage returns removed. */
  lemma TextOfLine(buf: string, n: nat)
    requires n < |Starts(buf, |buf|)|
    ensures |Lines(buf, |buf|)| == |Starts(buf, |buf|)|
    ensures Starts(buf, |buf|)[n] <= |buf|
    ensures Text(buf, Starts(buf, |buf|)[n]) == NoReturns(Lines(buf, |buf|)[n])
    ensures LineEnd(buf, Starts(buf, |buf|)[n]) < |buf| <==> n + 1 < |Starts(buf, |buf|)|
  {
    var all := Starts(buf, |buf|);
    AsManyLines(buf, |buf|);
    LinesAre(buf, |buf|, n);
    StartNumber(buf, |buf|, n);
    TextIs(buf, all[n]);
    if LineEnd(buf, all[n]) < |buf| {
      NextStart(buf, |buf|, n);
    } else {
      StartsExact(buf, |buf|);
      assert forall m :: n < m < |all| ==> IsStart(buf, all[m]) && all[n] < all[m];
      LineUnbroken(buf, all[n]);
    }
  }

  // ------------------------------------------------------------------ searching the table

  /** line_number's binary search over table[low..high]. */
  function Search(table: seq<nat>, position: nat, low: nat, high: int, prev: nat): nat
    requires high < |table|
    decreases high + 1 - low
  {
    if low > high then prev
    else
      var guess := low + (high - low) / 2;
      if table[guess] == position then guess
      else if table[guess] < position then Search(table, position, guess + 1, high, guess)
      else Search(table, position, low, guess - 1, prev)
  }

  /** `r` is the line that `position` lies in, by the first `cnt` + 1 entries of the table. */
  ghost predicate IsLineOf(table: seq<nat>, cnt: nat, position: nat, r: nat)
    requires cnt < |table|
  {
    r <= cnt && table[r] <= position && (r < cnt ==> position < table[r + 1])
  }

  /** In a table that ascends over its used part a position lies in one line only. */
  lemma LineUnique(table: seq<nat>, cnt: nat, position: nat, r: nat, s: nat)
    requires cnt < |table| && forall i, j :: 0 <= i < j <= cnt ==> table[i] < table[j]
    requires IsLineOf(table, cnt, position, r) && IsLineOf(table, cnt, position, s)
    ensures r == s
  {
  }

  ghost predicate Ascending(table: seq<nat>) {
    forall i, j :: 0 <= i < j < |table| ==> table[i] < table[j]
  }

  lemma NextEntry(table: seq<nat>, i: nat)
    requires Ascending(table) && i < |table|
    ensures i + 1 < |table| ==> table[i] < table[i + 1]
  {
  }

  lemma {:induction false} SearchAscending(table: seq<nat>, position: nat, low: nat, high: int, prev: nat)
    requires Ascending(table) && high < |table| && low <= high + 1 && prev == (if low == 0 then 0 else low - 1)
    requires |table| > 0 && table[prev] <= position && (high + 1 < |table| ==> position < table[high + 1])
    ensures IsLineOf(table, |table| - 1, position, Search(table, position, low, high, prev))
    decreases high + 1 - low
  {
    hide Search, Ascending;
    if low <= high {
      var guess := low + (high - low) / 2;
      SearchStep(table, position, low, high, prev, guess);
      NextEntry(table, guess);
      if table[guess] < position {
        SearchAscending(table, position, guess + 1, high, guess);
      } else if table[guess] > position {
        SearchAscending(table, position, low, guess - 1, prev);
      }
    } else {
      SearchEnd(table, position, low, high, prev);
    }
  }

  /** Where all entries it can still look at lie before the position, the search runs to the last
      slot, used or not. */
  lemma {:induction false} SearchBeyond(table: seq<nat>, position: nat, low: nat, prev: nat)
    requires forall i :: low <= i < |table| ==> table[i] < position
    requires low <= |table| && |table| > 0 && (low == |table| ==> prev == |table| - 1)
    ensures Search(table, position, low, |table| - 1, prev) == |table| - 1
    decreases |table| - low
  {
    if low < |table| {
      var guess := low + (|table| - 1 - low) / 2;
      SearchBeyond(table, position, guess + 1, guess);
    }
  }

  function Above(table: seq<nat>): (b: nat)
    ensures forall i :: 0 <= i < |table| ==> table[i] < b
  {
    if table == [] then 0
    else
      var rest := Above(table[1..]);
      assert forall i :: 0 < i < |table| ==> table[i] == table[1..][i - 1];
      if table[0] < rest then rest else table[0] + 1
  }

  /** line_number's result for `position` is right. */
  ghost predicate SearchRight(table: seq<nat>, cnt: nat, position: nat)
    requires cnt < |table|
  {
    IsLineOf(table, cnt, position, Search(table, position, 0, |table| - 1, 0))
  }

  /** Searching the whole allocation finds the right line for every position exactly when every slot
      of it is in use, whatever the unused slots hold. */
  lemma SearchRightIffFull(table: seq<nat>, cnt: nat)
    requires cnt < |table| && table[0] == 0 && Ascending(table[..cnt + 1])
    ensures (forall position :: SearchRight(table, cnt, position)) <==> cnt == |table| - 1
  {
    if cnt == |table| - 1 {
      assert table[..cnt + 1] == table;
      forall position ensures SearchRight(table, cnt, position) {
        SearchAscending(table, position, 0, |table| - 1, 0);
      }
    } else {
      var position := Above(table);
      SearchBeyond(table, position, 0, 0);
      assert !SearchRight(table, cnt, position);
    }
  }

  lemma SearchStep(table: seq<nat>, position: nat, low: nat, high: int, prev: nat, guess: nat)
    requires low <= high < |table| && guess == low + (high - low) / 2
    ensures low <= guess <= high
    ensures Search(table, position, low, high, prev) ==
            if table[guess] == position then guess
            else if table[guess] < position then Search(table, position, guess + 1, high, guess)
            else Search(table, position, low, guess - 1, prev)
  {
  }

  lemma {:induction false} SearchInside(table: seq<nat>, position: nat, low: nat, high: int, prev: nat)
    requires high < |table| && prev < |table|
    ensures Search(table, position, low, high, prev) < |table|
    decreases high + 1 - low
  {
    if low <= high {
      var guess := low + (high - low) / 2;
      SearchStep(table, position, low, high, prev, guess);
      hide Search;
      SearchInside(table, position, guess + 1, high, guess);
      SearchInside(table, position, low, guess - 1, prev);
    }
  }

  lemma SearchEnd(table: seq<nat>, position: nat, low: nat, high: int, prev: nat)
    requires high < |table| && low > high
    ensures Search(table, position, low, high, prev) == prev
  {
  }

  // ------------------------------------------------------------------ searching a table not full

  /** Searching for positions that are always further right: the last slot up to `cnt` that the search
      of table[low..high] looks at before it looks at a slot behind `cnt`; `last` if there is none. */
  function LastProbe(cnt: nat, low: nat, high: int, last: int): (r: int)
    ensures last <= cnt && last < low ==> last <= r <= cnt
    decreases high + 1 - low
  {
    if low > high then last
    else
      var guess := low + (high - low) / 2;
      if guess > cnt then last else LastProbe(cnt, guess + 1, high, guess)
  }

  /** The search gets to see the entry it needs: the table is full, or the position is not behind the
      last used slot that the search can look at. */
  predicate Found(table: seq<nat>, cnt: nat, position: nat)
    requires cnt < |table|
  {
    || cnt == |table| - 1
    || (var last := LastProbe(cnt, 0, |table| - 1, -1); last >= 0 && position <= table[last])
  }

  /** No unused slot holds more than `position`. */
  ghost predicate UnusedLow(table: seq<nat>, cnt: nat, position: nat) {
    forall i :: cnt < i < |table| ==> table[i] <= position
  }

  /** Inside the used part the search does not see the rest. */
  lemma {:induction false} SearchFront(table: seq<nat>, n: nat, position: nat, low: nat, high: int, prev: nat)
    requires high < n <= |table|
    ensures Search(table[..n], position, low, high, prev) == Search(table, position, low, high, prev)
    decreases high + 1 - low
  {
    if low <= high {
      var guess := low + (high - low) / 2;
      SearchFront(table, n, position, guess + 1, high, guess);
      SearchFront(table, n, position, low, guess - 1, prev);
    }
  }

  /** A turn to the left inside the used part leads to the right line. */
  lemma SearchTurned(table: seq<nat>, cnt: nat, position: nat, low: nat, guess: nat, prev: nat)
    requires cnt < |table| && Ascending(table[..cnt + 1]) && low <= guess <= cnt
    requires prev == (if low == 0 then 0 else low - 1) && table[prev] <= position < table[guess]
    ensures IsLineOf(table, cnt, position, Search(table, position, low, guess - 1, prev))
  {
    hide Search, Ascending, IsLineOf;
    var used := table[..cnt + 1];
    SearchFront(table, cnt + 1, position, low, guess - 1, prev);
    assert used[prev] == table[prev] && used[guess] == table[guess];
    SearchAscending(used, position, low, guess - 1, prev);
    LineOfFront(table, cnt, position, Search(used, position, low, guess - 1, prev));
  }

  lemma LineOfFront(table: seq<nat>, cnt: nat, position: nat, r: nat)
    requires cnt < |table|
    ensures IsLineOf(table[..cnt + 1], cnt, position, r) <==> IsLineOf(table, cnt, position, r)
  {
  }

  /** Among low unused slots the search only goes right. */
  lemma {:induction false} SearchStuck(table: seq<nat>, position: nat, low: nat, prev: nat)
    requires low <= |table| && forall i :: low <= i < |table| ==> table[i] <= position
    ensures var r := Search(table, position, low, |table| - 1, prev); r == prev || r >= low
    decreases |table| - low
  {
    if low < |table| {
      var guess := low + (|table| - 1 - low) / 2;
      SearchStuck(table, position, guess + 1, guess);
    }
  }

  lemma UsedAscend(table: seq<nat>, cnt: nat, i: nat, j: nat)
    requires cnt < |table| && Ascending(table[..cnt + 1]) && i <= j <= cnt
    ensures table[i] <= table[j] && (i < j ==> table[i] < table[j])
  {
    assert table[..cnt + 1][i] == table[i] && table[..cnt + 1][j] == table[j];
  }

  /** The search has found an entry that is the position. */
  lemma SearchHit(table: seq<nat>, cnt: nat, position: nat, guess: nat)
    requires cnt < |table| && Ascending(table[..cnt + 1]) && guess <= cnt && table[guess] == position
    ensures IsLineOf(table, cnt, position, guess)
  {
    if guess < cnt {
      UsedAscend(table, cnt, guess, guess + 1);
    }
  }

  lemma ProbeStep(cnt: nat, low: nat, high: int, last: int, guess: nat)
    requires low <= high && guess == low + (high - low) / 2
    ensures low <= guess <= high
    ensures LastProbe(cnt, low, high, last) == if guess > cnt then last else LastProbe(cnt, guess + 1, high, guess)
  {
  }

  /** `r` is the right answer exactly when `last` is a slot at or behind the position. */
  ghost predicate Settles(table: seq<nat>, cnt: nat, position: nat, r: nat, last: int)
    requires last <= cnt < |table|
  {
    && (last >= 0 && position <= table[last] ==> IsLineOf(table, cnt, position, r))
    && (UnusedLow(table, cnt, position) && IsLineOf(table, cnt, position, r) ==> last >= 0 && position <= table[last])
  }

  lemma SettlesWrong(table: seq<nat>, cnt: nat, position: nat, low: nat, guess: nat, r: nat)
    requires cnt < guess < |table| && low <= cnt + 1 && (low > 0 ==> table[low - 1] < position)
    requires if table[guess] == position then r == guess
             else table[guess] < position ==> r == Search(table, position, guess + 1, |table| - 1, guess)
    ensures Settles(table, cnt, position, r, low - 1)
  {
    hide Search;
    if UnusedLow(table, cnt, position) && table[guess] < position {
      SearchStuck(table, position, guess + 1, guess);
    }
  }

  lemma SettlesRight(table: seq<nat>, cnt: nat, position: nat, r: nat, guess: nat, last: int)
    requires guess <= last <= cnt < |table| && Ascending(table[..cnt + 1]) && position <= table[guess]
    requires IsLineOf(table, cnt, position, r)
    ensures Settles(table, cnt, position, r, last)
  {
    UsedAscend(table, cnt, guess, last);
  }

  lemma {:induction false} SearchOnRight(table: seq<nat>, cnt: nat, position: nat, low: nat, prev: nat)
    requires cnt < |table| - 1 && Ascending(table[..cnt + 1]) && table[0] == 0
    requires low <= cnt + 1 && prev == (if low == 0 then 0 else low - 1)
    requires low > 0 ==> table[low - 1] < position
    ensures LastProbe(cnt, low, |table| - 1, low - 1) <= cnt
    ensures Settles(table, cnt, position, Search(table, position, low, |table| - 1, prev),
                    LastProbe(cnt, low, |table| - 1, low - 1))
    decreases cnt + 1 - low
  {
    hide *;
    var high := |table| - 1;
    var guess := low + (high - low) / 2;
    SearchStep(table, position, low, high, prev, guess);
    ProbeStep(cnt, low, high, low - 1, guess);
    var r := Search(table, position, low, high, prev);
    if guess > cnt {
      SettlesWrong(table, cnt, position, low, guess, r);
    } else if table[guess] < position {
      SearchOnRight(table, cnt, position, guess + 1, guess);
    } else {
      var last := LastProbe(cnt, guess + 1, high, guess);
      if table[guess] > position {
        SearchTurned(table, cnt, position, low, guess, prev);
      } else {
        SearchHit(table, cnt, position, guess);
      }
      SettlesRight(table, cnt, position, r, guess, last);
    }
  }

  /** Exactly which positions are looked up rightly in a table that is not full, when the unused slots
      hold no more than the position, as they do where they are zero; and which ones are, whatever the
      unused slots hold. */
  lemma SearchRightExact(table: seq<nat>, cnt: nat, position: nat)
    requires cnt < |table| && table[0] == 0 && Ascending(table[..cnt + 1])
    ensures Found(table, cnt, position) ==> SearchRight(table, cnt, position)
    ensures UnusedLow(table, cnt, position) ==> (SearchRight(table, cnt, position) <==> Found(table, cnt, position))
  {
    hide Search, LastProbe, IsLineOf, UnusedLow, Ascending;
    if cnt == |table| - 1 {
      assert table[..cnt + 1] == table;
      SearchAscending(table, position, 0, |table| - 1, 0);
    } else {
      SearchOnRight(table, cnt, position, 0, 0);
    }
  }

  /** All positions up to a bound are looked up rightly exactly when the bound is. */
  lemma SearchRightUpTo(table: seq<nat>, cnt: nat, bound: nat)
    requires cnt < |table| && table[0] == 0 && Ascending(table[..cnt + 1])
    requires forall i :: cnt < i < |table| ==> table[i] == 0
    ensures (forall position :: 0 <= position <= bound ==> SearchRight(table, cnt, position))
            <==> Found(table, cnt, bound)
  {
    hide SearchRight, LastProbe;
    SearchRightExact(table, cnt, bound);
    if Found(table, cnt, bound) {
      forall position | 0 <= position <= bound ensures SearchRight(table, cnt, position) {
        SearchRightExact(table, cnt, position);
      }
    }
  }

  /** A table less than half full, its unused slots zero: every position ends up in the middle slot or
      in the last one, and none is looked up rightly. */
  lemma HalfEmptyWrong(table: seq<nat>, cnt: nat, position: nat)
    requires cnt < (|table| - 1) / 2 && table[0] == 0 && Ascending(table[..cnt + 1])
    requires forall i :: cnt < i < |table| ==> table[i] == 0
    ensures Search(table, position, 0, |table| - 1, 0) == if position == 0 then (|table| - 1) / 2 else |table| - 1
    ensures !SearchRight(table, cnt, position)
  {
    var guess := (|table| - 1) / 2;
    SearchStep(table, position, 0, |table| - 1, 0, guess);
    hide Search;
    if position > 0 {
      SearchBeyond(table, position, guess + 1, guess);
    }
  }

  /** The table as it is allocated: position 0 is found in line 511. */
  lemma FreshTableWrong(table: seq<nat>)
    requires table == seq(LINE_TBL_INCR, i => 0)
    ensures Search(table, 0, 0, |table| - 1, 0) == 511 && !SearchRight(table, 0, 0)
  {
    HalfEmptyWrong(table, 0, 0);
  }

  class View {
    const buf: string
    var filePos: nat
    var fEod: bool
    var fBod: bool
    var fSqueeze: bool
    var lnNo: int
    var lnTbl: array<nat>
    var lnTblCnt: nat
    var lnMaxPos: nat
    var lineIn: string

    /** The table agrees with the buffer as far as it goes: its first lnTblCnt + 1 entries are the
        line starts up to lnMaxPos, the last of them. */
    ghost predicate Indexed()
      reads this`lnTbl, this`lnTblCnt, this`lnMaxPos, lnTbl
    {
      && lnMaxPos <= |buf|
      && lnTblCnt < lnTbl.Length
      && lnTbl[..lnTblCnt + 1] == Starts(buf, lnMaxPos)
      && lnTbl[lnTblCnt] == lnMaxPos
    }

    /** The line number is that of the position, and the table reaches that far. */
    ghost predicate Synced()
      reads this`filePos, this`lnNo, this`lnTblCnt
    {
      filePos <= |buf| && lnNo == Newlines(buf, filePos) <= lnTblCnt
    }

    /** The unused slots are zero, as the allocation leaves them. */
    ghost predicate Cleared()
      reads this`lnTbl, this`lnTblCnt, lnTbl
    {
      forall i :: lnTblCnt < i < lnTbl.Length ==> lnTbl[i] == 0
    }

    /** A fresh View with an initialised table. */
    constructor (buf: string, squeeze: bool)
      ensures Indexed() && Synced() && this.buf == buf && lnTblCnt == 0 && filePos == 0 && fSqueeze == squeeze
      ensures fresh(lnTbl) && lnTbl.Length == LINE_TBL_INCR && Cleared()
    {
      this.buf := buf;
      filePos, fEod, fBod, fSqueeze, lineIn := 0, false, false, squeeze, "";
      lnTbl := new nat[LINE_TBL_INCR](_ => 0);
      lnTblCnt, lnMaxPos, lnNo := 0, 0, 0;
    }

    /** A newline has just been read: count the line, and record its start if it is new. */
    method IncrementLn()
      requires Indexed() && 0 < filePos <= |buf| && buf[filePos - 1] == '\n'
      requires lnNo == Newlines(buf, filePos) - 1 <= lnTblCnt
      modifies this`lnNo, this`lnTbl, this`lnTblCnt, this`lnMaxPos, lnTbl
      ensures Indexed() && Synced() && lnTblCnt >= old(lnTblCnt) && (lnTbl == old(lnTbl) || fresh(lnTbl))
      ensures lnMaxPos == if filePos <= old(lnMaxPos) then old(lnMaxPos) else filePos
      ensures old(Cleared()) && lnTblCnt < old(lnTbl.Length) ==> lnTbl == old(lnTbl) && Cleared()
    {
      lnNo := lnNo + 1;
      if filePos <= lnMaxPos {
        StartsPrefix(buf, filePos, lnMaxPos);
        return;
      }
      StartsPrefix(buf, lnMaxPos, filePos - 1);
      StartsStep(buf, filePos - 1);
      hide Starts;
      ghost var table := lnTbl[..lnNo];
      assert lnNo == lnTblCnt + 1 && Starts(buf, filePos - 1) == table;
      MakeRoom();
      Record(table);
    }

    /** A new line start is the next entry of the table. */
    method Record(ghost table: seq<nat>)
      requires filePos <= |buf| && 0 < lnNo < lnTbl.Length && lnTbl[..lnNo] == table
      requires Starts(buf, filePos) == table + [filePos]
      modifies this`lnTblCnt, this`lnMaxPos, lnTbl
      ensures Indexed() && lnTblCnt == lnNo && lnMaxPos == filePos
      ensures forall i :: lnNo < i < lnTbl.Length ==> lnTbl[i] == old(lnTbl[i])
    {
      hide Starts;
      lnTblCnt := lnNo;
      lnMaxPos := filePos;
      lnTbl[lnNo] := filePos;
      assert lnTbl[..lnNo + 1] == lnTbl[..lnNo] + [filePos];
    }

    /** The reallocation in increment_ln, if the table is full: what it holds is kept. */
    method MakeRoom()
      requires 0 <= lnNo <= lnTbl.Length
      modifies this`lnTbl
      ensures lnNo < lnTbl.Length && lnTbl[..lnNo] == old(lnTbl[..lnNo])
      ensures if old(lnNo < lnTbl.Length) then lnTbl == old(lnTbl)
              else fresh(lnTbl) && lnTbl.Length == old(lnTbl.Length) + LINE_TBL_INCR
    {
      if lnNo > lnTbl.Length - 1 {
        var grown := new nat[lnTbl.Length + LINE_TBL_INCR];
        forall i | 0 <= i < lnTbl.Length {
          grown[i] := lnTbl[i];
        }
        lnTbl := grown;
      }
    }

    /** get_next_char: the next character that is not a carriage return. */
    method GetNextChar() returns (c: char)
      requires Indexed() && Synced()
      modifies this`filePos, this`fEod, this`lnNo, this`lnTbl, this`lnTblCnt, this`lnMaxPos, lnTbl
      ensures Indexed() && Synced() && lnTblCnt >= old(lnTblCnt) && (lnTbl == old(lnTbl) || fresh(lnTbl))
      ensures fEod ==> filePos == |buf| && c != '\n' && forall k :: old(filePos) <= k < |buf| ==> buf[k] == '\r'
      ensures !fEod ==> old(filePos) < filePos && c == buf[filePos - 1] != '\r'
                        && forall k :: old(filePos) <= k < filePos - 1 ==> buf[k] == '\r'
      ensures lnMaxPos == if !fEod && c == '\n' && filePos > old(lnMaxPos) then filePos else old(lnMaxPos)
      ensures old(Cleared()) && lnTblCnt < old(lnTbl.Length) ==> lnTbl == old(lnTbl) && Cleared()
    {
      hide View.Indexed, View.Cleared;
      c := '\0';
      ghost var start := filePos;
      while true
        invariant start <= filePos <= |buf| && forall k :: start <= k < filePos ==> buf[k] == '\r'
        invariant filePos == start || c == '\r'
        invariant c == '\0' || c == '\r'
        modifies this`filePos, this`fEod
        decreases |buf| - filePos
      {
        if filePos == |buf| {
          fEod := true;
          SameNewlines(buf, start, filePos);
          break;
        }
        fEod := false;
        c := buf[filePos];
        filePos := filePos + 1;
        if c != '\r' {
          SameNewlines(buf, start, filePos - 1);
          break;
        }
      }
      if c == '\n' {
        IncrementLn();
      }
    }

    /** get_prev_char: the previous character that is not a carriage return. */
    method GetPrevChar() returns (c: char)
      requires filePos <= |buf|
      modifies this`filePos, this`fBod
      ensures filePos <= old(filePos)
      ensures fBod ==> filePos == 0 && forall k :: 0 <= k < old(filePos) ==> buf[k] == '\r'
      ensures !fBod ==> filePos < old(filePos) && c == buf[filePos] != '\r'
                        && forall k :: filePos < k < old(filePos) ==> buf[k] == '\r'
    {
      c := '\0';
      while true
        invariant filePos <= old(filePos) && forall k :: filePos <= k < old(filePos) ==> buf[k] == '\r'
        decreases filePos
      {
        if filePos == 0 {
          fBod := true;
          break;
        }
        fBod := false;
        filePos := filePos - 1;
        c := buf[filePos];
        if c != '\r' {
          break;
        }
      }
    }

    /** Line breaks from `p` on have been skipped: up to a character that is none, or up to the end. */
    ghost predicate Skipped(p: nat)
      reads this`filePos, this`fEod
    {
      if fEod then forall k :: p <= k < |buf| ==> buf[k] == '\n' || buf[k] == '\r'
      else
        && p <= filePos < |buf| && buf[filePos] != '\n' && buf[filePos] != '\r'
        && forall k :: p <= k < filePos ==> buf[k] == '\n' || buf[k] == '\r'
    }

    /** The squeeze part of get_line: skips newlines, then steps back to what follows them. */
    method SkipBlank()
      requires Indexed() && Synced() && 0 < filePos
      modifies this`filePos, this`fEod, this`fBod, this`lnNo, this`lnTbl, this`lnTblCnt, this`lnMaxPos, lnTbl
      ensures Indexed() && lnMaxPos >= old(lnMaxPos) && lnTblCnt >= old(lnTblCnt)
      ensures lnTbl == old(lnTbl) || fresh(lnTbl)
      ensures Skipped(old(filePos))
      ensures old(Cleared()) && lnTblCnt < old(lnTbl.Length) ==> lnTbl == old(lnTbl) && Cleared()
    {
      var c;
      ghost var start := filePos;
      while true
        invariant Indexed() && Synced() && start <= filePos
        invariant lnMaxPos >= old(lnMaxPos) && lnTblCnt >= old(lnTblCnt) && (lnTbl == old(lnTbl) || fresh(lnTbl))
        invariant forall k :: start <= k < filePos ==> buf[k] == '\n' || buf[k] == '\r'
        invariant old(Cleared()) && lnTblCnt < old(lnTbl.Length) ==> lnTbl == old(lnTbl) && Cleared()
        decreases |buf| - filePos
      {
        c := GetNextChar();
        if c != '\n' {
          break;
        }
        if fEod {
          break;
        }
      }
      c := GetPrevChar();
    }

    /** get_line: reads line `line` of the buffer through the index. What is read depends on the
        buffer and the line number alone, not on what was read before. A line too long for the input
        buffer is cut off; a last line without a newline is reported as end of data. */
    method GetLine(line: nat)
      requires Indexed() && line <= lnTblCnt
      modifies this`filePos, this`fEod, this`fBod, this`lineIn
      modifies this`lnNo, this`lnTbl, this`lnTblCnt, this`lnMaxPos, lnTbl
      ensures Indexed() && lnNo == line && lnTblCnt >= old(lnTblCnt) && (lnTbl == old(lnTbl) || fresh(lnTbl))
      ensures lnMaxPos >= old(lnMaxPos) && line < |Lines(buf, |buf|)|
      ensures var text := NoReturns(Lines(buf, |buf|)[line]);
              if |text| > 4096 then lineIn == text[..4096] && StoppedInside(lnTbl[line])
              else if line == |Lines(buf, |buf|)| - 1 then fEod
              else lineIn == text && line < lnTblCnt && lnTbl[line + 1] > 0 && AfterLine(lnTbl[line + 1] - 1)
      ensures old(Cleared()) && lnTblCnt < old(lnTbl.Length) ==> lnTbl == old(lnTbl) && Cleared()
    {
      hide View.Indexed, View.Synced, View.Cleared, Starts, Text, LineEnd, Lines, NoReturns, Remains;
      InRange();
      EntryAt(line);
      lnNo := line;
      filePos := lnTbl[line];
      ghost var start := filePos;
      AtEntry(line);
      ReadLine(line, start);
      if !fEod && fSqueeze {
        SkipBlank();
      }
      SameEntry(old(lnMaxPos), line, start);
      LineInTable(line);
      lnNo := line;
    }

    lemma InRange()
      requires Indexed()
      ensures lnTblCnt < lnTbl.Length
    {
    }

    lemma AtEntry(line: nat)
      requires Indexed() && line <= lnTblCnt && lnNo == line && filePos == lnTbl[line]
      ensures Synced()
    {
      EntryAt(line);
    }

    /** An entry keeps its place when the table grows. */
    lemma SameEntry(max0: nat, line: nat, start: nat)
      requires Indexed() && max0 <= lnMaxPos && line < |Starts(buf, max0)| && start == Starts(buf, max0)[line]
      ensures line <= lnTblCnt && lnTbl[line] == start
    {
      StartsPrefix(buf, max0, lnMaxPos);
      EntryAt(0);
      EntryAt(line);
    }

    /** The table against the buffer split at newlines. */
    lemma LineInTable(line: nat)
      requires Indexed() && line <= lnTblCnt
      ensures lnTbl[line] <= |buf| && line < |Lines(buf, |buf|)|
      ensures Text(buf, lnTbl[line]) == NoReturns(Lines(buf, |buf|)[line])
      ensures var end := LineEnd(buf, lnTbl[line]);
              && (end < |buf| <==> line < |Lines(buf, |buf|)| - 1)
              && (end < lnMaxPos ==> line < lnTblCnt && lnTbl[line + 1] == end + 1)
    {
      EntryAt(line);
      StartsPrefix(buf, lnMaxPos, |buf|);
      TextOfLine(buf, line);
      if LineEnd(buf, lnTbl[line]) < lnMaxPos {
        NextStart(buf, lnMaxPos, line);
        EntryAt(line + 1);
      }
    }

    /** Each entry of the table is the start of its line. */
    lemma EntryAt(line: nat)
      requires Indexed() && line <= lnTblCnt
      ensures |Starts(buf, lnMaxPos)| == lnTblCnt + 1
      ensures lnTbl[line] == Starts(buf, lnMaxPos)[line] <= lnMaxPos && Newlines(buf, lnTbl[line]) == line
    {
      assert lnTbl[line] == lnTbl[..lnTblCnt + 1][line];
      StartNumber(buf, lnMaxPos, line);
    }

    /** Where reading stops after a line that ends at `end`. */
    ghost predicate AfterLine(end: nat)
      reads this`filePos, this`fEod, this`fSqueeze
    {
      if fSqueeze then Skipped(end + 1) else !fEod && filePos == end + 1
    }

    /** The reading part of get_line, from the start of the line; fEod tells that it returned early. */
    method ReadLine(line: nat, ghost start: nat)
      requires Indexed() && Synced() && filePos == start && lnNo == line
      modifies this`filePos, this`fEod, this`lnNo, this`lnTbl, this`lnTblCnt, this`lnMaxPos, this`lineIn, lnTbl
      ensures Indexed() && lnTblCnt >= old(lnTblCnt) && lnMaxPos >= old(lnMaxPos)
      ensures lnTbl == old(lnTbl) || fresh(lnTbl)
      ensures LineRead(start)
      ensures !fEod ==> Synced() && 0 < filePos
      ensures old(Cleared()) && lnTblCnt < old(lnTbl.Length) ==> lnTbl == old(lnTbl) && Cleared()
    {
      hide View.Indexed, View.Cleared, Starts, Text, LineEnd, Remains, View.Synced;
      SyncedInside();
      fEod := false;
      var c := GetNextChar();
      SyncedInside();
      if fEod {
        RemainsStart(buf, start, |buf|);
        RemainsEnd(buf, start, "");
        return;
      }
      RemainsStart(buf, start, filePos - 1);
      lineIn := "";
      ReadRest(c, start);
    }

    /** Its loop, from the first character on. */
    method ReadRest(first: char, ghost start: nat)
      requires Indexed() && Synced() && !fEod && start < filePos <= |buf| && first == buf[filePos - 1] != '\r'
      requires lineIn == "" && Remains(buf, start, "", filePos - 1) && (first == '\n' ==> filePos <= lnMaxPos)
      modifies this`filePos, this`fEod, this`lnNo, this`lnTbl, this`lnTblCnt, this`lnMaxPos, this`lineIn, lnTbl
      ensures Indexed() && lnTblCnt >= old(lnTblCnt) && lnMaxPos >= old(lnMaxPos)
      ensures lnTbl == old(lnTbl) || fresh(lnTbl)
      ensures LineRead(start)
      ensures !fEod ==> Synced() && 0 < filePos
      ensures old(Cleared()) && lnTblCnt < old(lnTbl.Length) ==> lnTbl == old(lnTbl) && Cleared()
    {
      hide View.Indexed, View.Cleared, Starts, Text, LineEnd, Remains, View.Synced;
      var c := first;
      while true
        invariant Indexed() && Synced() && !fEod && start < filePos <= |buf| && c == buf[filePos - 1] != '\r'
        invariant lnTblCnt >= old(lnTblCnt) && (lnTbl == old(lnTbl) || fresh(lnTbl)) && lnMaxPos >= old(lnMaxPos)
        invariant |lineIn| <= PAD_COLS && Remains(buf, start, lineIn, filePos - 1)
        invariant c == '\n' ==> filePos <= lnMaxPos
        invariant old(Cleared()) && lnTblCnt < old(lnTbl.Length) ==> lnTbl == old(lnTbl) && Cleared()
        decreases |buf| - filePos
      {
        if c == '\n' {
          RemainsNewline(buf, start, lineIn, filePos - 1);
          break;
        }
        if |lineIn| >= PAD_COLS {
          RemainsLong(buf, start, lineIn, filePos - 1);
          break;
        }
        ghost var p, read := filePos - 1, lineIn;
        lineIn := lineIn + [c];
        c := GetNextChar();
        SyncedInside();
        RemainsStep(buf, start, read, p, if fEod then |buf| else filePos - 1);
        if fEod {
          RemainsEnd(buf, start, lineIn);
          return;
        }
      }
    }

    /** How reading the line at `start` can have ended. */
    ghost predicate LineRead(start: nat)
      requires start <= |buf|
      reads this`filePos, this`fEod, this`lineIn, this`lnMaxPos
    {
      var text, end := Text(buf, start), LineEnd(buf, start);
      if |text| > PAD_COLS then !fEod && lineIn == text[..PAD_COLS] && Inside(start)
      else if end == |buf| then fEod
      else lineIn == text && end < lnMaxPos && !fEod && filePos == end + 1
    }

    lemma SyncedInside()
      requires Synced()
      ensures filePos <= |buf|
    {
    }

    /** A reader at `p` is inside the line that starts at `start`, with one character more read than is
        in the input buffer. */
    ghost predicate InsideAt(start: nat, p: nat)
      reads this`lineIn
    {
      && start < p <= |buf| && buf[p - 1] != '\n' && buf[p - 1] != '\r'
      && Remains(buf, start, lineIn, p - 1)
    }

    ghost predicate Inside(start: nat)
      reads this`filePos, this`lineIn
    {
      InsideAt(start, filePos)
    }

    /** Where get_line stops in a line too long for the input buffer. */
    ghost predicate StoppedInside(start: nat)
      reads this`filePos, this`fEod, this`fSqueeze, this`lineIn
    {
      if fSqueeze then exists p: nat :: InsideAt(start, p) && Skipped(p) else !fEod && Inside(start)
    }

    /** Reading on for position `t` has ended: at the first line start at or after `t`, which is now
        the last of the table, or at the end of the buffer. */
    ghost predicate ReadPast(t: nat)
      requires lnTblCnt < lnTbl.Length
      reads this`filePos, this`fEod, this`lnNo, this`lnTbl, this`lnTblCnt, this`lnMaxPos, lnTbl
    {
      && filePos <= |buf| && lnNo == lnTblCnt == Newlines(buf, filePos)
      && if filePos == lnMaxPos && t <= filePos then FirstStart(buf, t, filePos)
         else fEod && filePos == |buf|
    }

    /** sync_ln: brings the line number and the position together again. Past the table it reads on;
        behind the current line it finds the greatest line start at or before the position; ahead of
        the current line but inside the table it goes to the end of the table. */
    method SyncLn()
      requires Indexed() && 0 <= lnNo < lnTbl.Length
      modifies this`filePos, this`fEod, this`lnNo, this`lnTbl, this`lnTblCnt, this`lnMaxPos, lnTbl
      ensures Indexed() && (lnTbl == old(lnTbl) || fresh(lnTbl)) && lnMaxPos >= old(lnMaxPos)
      ensures old(lnTbl[lnNo]) == old(filePos) ==> lnNo == old(lnNo) && filePos == old(filePos) && SameTable()
      ensures old(lnTbl[lnNo]) != old(filePos) && old(filePos) > old(lnMaxPos) ==> ReadPast(old(filePos))
      ensures old(lnTbl[lnNo]) != old(filePos) && old(filePos) <= old(lnMaxPos) ==>
                && SameTable() && 0 <= lnNo < lnTbl.Length && filePos == lnTbl[lnNo]
                && if old(lnTbl[lnNo]) > old(filePos)
                   then lnNo < old(lnNo) && filePos <= old(filePos) < lnTbl[lnNo + 1]
                   else lnNo == lnTblCnt > 0
                        && (FirstStart(buf, old(filePos), filePos) <==> lnTbl[lnTblCnt - 1] < old(filePos))
      ensures old(Cleared()) && lnTblCnt < old(lnTbl.Length) ==> lnTbl == old(lnTbl) && Cleared()
    {
      Increasing();
      if lnTbl[lnNo] == filePos {
        return;
      }
      var targetPos := filePos;
      filePos := lnTbl[lnTblCnt];
      if filePos < targetPos {
        lnNo := lnTblCnt;
        ReadOn(targetPos);
      } else if lnTbl[lnNo] > targetPos {
        StepBack(targetPos);
      } else {
        LastIsFirst(targetPos);
        lnNo := lnTblCnt;
        filePos := lnTbl[lnNo];
      }
    }

    twostate predicate SameTable()
      reads this`lnTbl, this`lnTblCnt, this`lnMaxPos, lnTbl
    {
      lnTbl == old(lnTbl) && lnTblCnt == old(lnTblCnt) && lnMaxPos == old(lnMaxPos) && lnTbl[..] == old(lnTbl[..])
    }

    /** For a line number in the used part of the table, going back or staying finds the greatest line
        start at or before the position. */
    lemma SyncedBack(line: nat, position: nat)
      requires Indexed() && line <= lnTblCnt && lnTbl[line] <= position && position <= lnMaxPos
      requires lnTbl[line] == position || (line < lnTblCnt && position < lnTbl[line + 1])
      ensures IsLineOf(lnTbl[..], lnTblCnt, position, line)
      ensures Found(lnTbl[..], lnTblCnt, position) ==> Search(lnTbl[..], position, 0, lnTbl.Length - 1, 0) == line
    {
      hide View.Indexed, Search, Found;
      Increasing();
      LookupExact(position);
      var table := lnTbl[..];
      if Found(table, lnTblCnt, position) {
        LineUnique(table, lnTblCnt, position, line, Search(table, position, 0, |table| - 1, 0));
      }
    }

    /** The last entry of the table is the first start at or after `t` exactly when the entry before
        it lies before `t`. */
    lemma LastIsFirst(t: nat)
      requires Indexed() && 0 < lnTblCnt && t <= lnMaxPos
      ensures FirstStart(buf, t, lnMaxPos) <==> lnTbl[lnTblCnt - 1] < t
    {
      StartsExact(buf, lnMaxPos);
      EntryAt(lnTblCnt - 1);
      EntryAt(lnTblCnt);
      var s := Starts(buf, lnMaxPos);
      assert IsStart(buf, s[lnTblCnt - 1]) && IsStart(buf, s[lnTblCnt]) && s[lnTblCnt - 1] < s[lnTblCnt];
      if lnTbl[lnTblCnt - 1] < t {
        forall q: nat | t <= q < lnMaxPos ensures !IsStart(buf, q) {
          assert IsStart(buf, q) ==> q in s;
        }
      }
    }

    /** What a table of the buffer of three lines holds once it has been read. */
    lemma ThreeIndexed()
      requires Indexed() && buf == THREE_LINES && lnTblCnt == 3
      ensures lnMaxPos == 6 && lnTbl[0] == 0 && FirstStart(buf, 2, 2) && !FirstStart(buf, 2, 6)
    {
      Increasing();
      StartsPrefix(buf, lnMaxPos, 6);
      ThreeLinesStarts();
      hide Starts;
      EntryAt(lnTblCnt);
      assert IsStart(buf, 2);
    }

    lemma LastEntry()
      requires Indexed()
      ensures lnTblCnt < lnTbl.Length && lnTbl[lnTblCnt] == lnMaxPos
    {
    }

    lemma Increasing()
      requires Indexed()
      ensures lnTbl[0] == 0 && forall i, j :: 0 <= i < j <= lnTblCnt ==> lnTbl[i] < lnTbl[j]
    {
      StartsExact(buf, lnMaxPos);
      var s := Starts(buf, lnMaxPos);
      EntryAt(0);
      forall i, j | 0 <= i < j <= lnTblCnt ensures lnTbl[i] < lnTbl[j] {
        assert s[i] < s[j];
        EntryAt(i);
        EntryAt(j);
      }
    }

    /** sync_ln's backward search in the table. */
    method StepBack(target: nat)
      requires Indexed() && 0 <= lnNo < lnTbl.Length && lnTbl[lnNo] > target
      modifies this`filePos, this`lnNo
      ensures 0 <= lnNo < old(lnNo) && filePos == lnTbl[lnNo] <= target < lnTbl[lnNo + 1]
    {
      Increasing();
      var idx := lnNo - 1;
      while lnTbl[idx] > target
        invariant 0 <= idx < lnNo && lnTbl[idx + 1] > target
        decreases idx
      {
        idx := idx - 1;
      }
      lnNo := idx;
      filePos := lnTbl[lnNo];
    }

    /** sync_ln's reading loop, from the end of the table until a line starts at or after `target`. */
    method ReadOn(target: nat)
      requires Indexed() && filePos == lnMaxPos < target && lnNo == lnTblCnt
      modifies this`filePos, this`fEod, this`lnNo, this`lnTbl, this`lnTblCnt, this`lnMaxPos, lnTbl
      ensures Indexed() && lnMaxPos >= old(lnMaxPos) && (lnTbl == old(lnTbl) || fresh(lnTbl)) && ReadPast(target)
      ensures old(Cleared()) && lnTblCnt < old(lnTbl.Length) ==> lnTbl == old(lnTbl) && Cleared()
    {
      hide View.Indexed, View.Cleared, Starts, FirstStart, View.Synced;
      StartsReading();
      while lnMaxPos < target
        invariant Indexed() && Synced() && lnMaxPos >= old(lnMaxPos) && (lnTbl == old(lnTbl) || fresh(lnTbl))
        invariant lnMaxPos <= filePos <= |buf| && forall k :: lnMaxPos <= k < filePos ==> buf[k] != '\n'
        invariant lnMaxPos >= target ==> filePos == lnMaxPos && FirstStart(buf, target, filePos)
        invariant old(Cleared()) && lnTblCnt < old(lnTbl.Length) ==> lnTbl == old(lnTbl) && Cleared()
        decreases |buf| - filePos
      {
        ghost var max0 := lnMaxPos;
        var c := GetNextChar();
        SyncedInside();
        if fEod {
          break;
        }
        if lnMaxPos > max0 {
          NextIsFirst(buf, target, max0, filePos);
        }
      }
      EndsReading();
    }

    lemma StartsReading()
      requires Indexed() && filePos == lnMaxPos && lnNo == lnTblCnt
      ensures Synced()
    {
    }

    lemma EndsReading()
      requires Indexed() && Synced() && lnMaxPos <= filePos && forall k :: lnMaxPos <= k < filePos ==> buf[k] != '\n'
      ensures lnTblCnt < lnTbl.Length && filePos <= |buf| && lnNo == lnTblCnt == Newlines(buf, filePos)
    {
      SameNewlines(buf, lnMaxPos, filePos);
    }

    /** The first half of go_to_eof: the whole buffer gets indexed, and the line is the last one. */
    method IndexAll()
      requires Indexed() && 0 <= lnNo <= lnTblCnt
      modifies this`filePos, this`fEod, this`lnNo, this`lnTbl, this`lnTblCnt, this`lnMaxPos, lnTbl
      ensures Indexed() && lnTblCnt == Newlines(buf, |buf|) && lnNo == lnTblCnt - 1
      ensures old(Cleared()) && lnTblCnt < old(lnTbl.Length) ==> lnTbl == old(lnTbl) && Cleared()
    {
      Increasing();
      filePos := |buf|;
      SyncLn();
      EntryAt(lnTblCnt);
      lnNo := lnNo - 1;
    }

    /** line_number: binary search over the allocated table. */
    method LineNumber(position: nat) returns (r: nat)
      requires Indexed()
      ensures r == Search(lnTbl[..], position, 0, lnTbl.Length - 1, 0)
      ensures Found(lnTbl[..], lnTblCnt, position) ==> IsLineOf(lnTbl[..], lnTblCnt, position, r)
      ensures Cleared() ==> (IsLineOf(lnTbl[..], lnTblCnt, position, r) <==> Found(lnTbl[..], lnTblCnt, position))
    {
      LookupExact(position);
      hide *;
      r := BinarySearch(lnTbl, position);
    }

    /** Its loop. */
    static method BinarySearch(lnTbl: array<nat>, position: nat) returns (r: nat)
      ensures r == Search(lnTbl[..], position, 0, lnTbl.Length - 1, 0)
    {
      hide *;
      ghost var table := lnTbl[..];
      var low, high, prevLnNo := 0, lnTbl.Length - 1, 0;
      while low <= high
        invariant 0 <= low && high < |table|
        invariant Search(table, position, low, high, prevLnNo) == Search(table, position, 0, |table| - 1, 0)
        decreases high + 1 - low
      {
        var guess := low + (high - low) / 2;
        SearchStep(table, position, low, high, prevLnNo, guess);
        if lnTbl[guess] == position {
          return guess;
        }
        if lnTbl[guess] < position {
          prevLnNo := guess;
          low := guess + 1;
        } else {
          high := guess - 1;
        }
      }
      SearchEnd(table, position, low, high, prevLnNo);
      return prevLnNo;
    }

    /** go_to_percent up to the choice of the page: looks the position up and goes back from its line
        by the lines kept for scrolling. Where the lookup is right the page starts at the line that many
        lines before that of the position; with a table less than half full it starts the same number
        of lines before the middle or the last slot. */
    method GoToPercent(percent: nat, scrollLines: nat) returns (pageTopLnNo: nat, pageTopPos: nat)
      requires Indexed()
      modifies this`filePos, this`fEod, this`lnNo, this`lnTbl, this`lnTblCnt, this`lnMaxPos, lnTbl
      ensures Indexed() && SameTable()
      ensures var position, table := percent * |buf| / 100, lnTbl[..];
              && 0 <= lnNo < lnTbl.Length
              && pageTopLnNo == (if lnNo > scrollLines then lnNo - scrollLines else 0)
              && pageTopPos == table[pageTopLnNo] == filePos
              && (Found(table, lnTblCnt, position) ==> IsLineOf(table, lnTblCnt, position, lnNo))
              && (Cleared() && lnTblCnt < (lnTbl.Length - 1) / 2 ==>
                    lnNo == if position == 0 then (lnTbl.Length - 1) / 2 else lnTbl.Length - 1)
    {
      hide View.Indexed, View.Cleared, Found, IsLineOf, Starts;
      filePos := percent * |buf| / 100;
      GoToPosition();
      pageTopLnNo := if lnNo > scrollLines then lnNo - scrollLines else 0;
      pageTopPos := lnTbl[pageTopLnNo];
      filePos := pageTopPos;
    }

    /** go_to_position: looks the position up and synchronises at its line, which changes nothing. */
    method GoToPosition()
      requires Indexed()
      modifies this`filePos, this`fEod, this`lnNo, this`lnTbl, this`lnTblCnt, this`lnMaxPos, lnTbl
      ensures Indexed() && SameTable()
      ensures 0 <= lnNo < lnTbl.Length && filePos == lnTbl[lnNo] && lnTblCnt < lnTbl.Length
      ensures Found(lnTbl[..], lnTblCnt, old(filePos)) ==> IsLineOf(lnTbl[..], lnTblCnt, old(filePos), lnNo)
      ensures Cleared() && lnTblCnt < (lnTbl.Length - 1) / 2 ==>
                lnNo == if old(filePos) == 0 then (lnTbl.Length - 1) / 2 else lnTbl.Length - 1
    {
      hide View.Indexed, Found, IsLineOf, Search, Starts, FirstStart, View.ReadPast;
      LastEntry();
      HalfEmptyLookup(filePos);
      lnNo := LineNumber(filePos);
      SearchInside(lnTbl[..], filePos, 0, lnTbl.Length - 1, 0);
      filePos := lnTbl[lnNo];
      SyncLn();
    }

    lemma HalfEmptyLookup(position: nat)
      requires Indexed()
      ensures Cleared() && lnTblCnt < (lnTbl.Length - 1) / 2 ==>
                Search(lnTbl[..], position, 0, lnTbl.Length - 1, 0) ==
                if position == 0 then (lnTbl.Length - 1) / 2 else lnTbl.Length - 1
    {
      Increasing();
      hide View.Indexed, Search, Starts;
      var table := lnTbl[..];
      assert forall i :: 0 <= i <= lnTblCnt < |table| ==> table[..lnTblCnt + 1][i] == lnTbl[i];
      if Cleared() && lnTblCnt < (lnTbl.Length - 1) / 2 {
        HalfEmptyWrong(table, lnTblCnt, position);
      }
    }

    lemma LookupExact(position: nat)
      requires Indexed()
      ensures 0 < lnTbl.Length && lnTblCnt < lnTbl.Length
      ensures var table := lnTbl[..];
              var r := Search(table, position, 0, |table| - 1, 0);
              && (Found(table, lnTblCnt, position) ==> IsLineOf(table, lnTblCnt, position, r))
              && (Cleared() ==> (IsLineOf(table, lnTblCnt, position, r) <==> Found(table, lnTblCnt, position)))
    {
      Increasing();
      hide View.Indexed, Search, Found, Starts, IsLineOf;
      var table := lnTbl[..];
      assert forall i :: 0 <= i <= lnTblCnt ==> table[..lnTblCnt + 1][i] == lnTbl[i];
      SearchRightExact(table, lnTblCnt, position);
    }
  }

  /** A file of three lines, opened and indexed to its end: the position of its second line is looked
      up in line 1023. */
  method LookupExample() returns (lines: nat, position: nat, r: nat)
    ensures lines == 3 && Starts(THREE_LINES, |THREE_LINES|)[1] == position && r == 1023
  {
    ThreeLinesStarts();
    var view := new View(THREE_LINES, false);
    view.IndexAll();
    lines, position := view.lnTblCnt, 2;
    view.HalfEmptyLookup(position);
    hide *;
    r := view.LineNumber(position);
  }

  /** The same file, at the position of its second line with the line number of the first:
      synchronising goes past the second line, and past the third, to the end. */
  method OvershootExample() returns (filePos: nat, lnNo: int)
    ensures FirstStart(THREE_LINES, 2, 2) && filePos == 6 && lnNo == 3 && !FirstStart(THREE_LINES, 2, filePos)
  {
    ThreeLinesStarts();
    var view := new View(THREE_LINES, false);
    view.IndexAll();
    view.ThreeIndexed();
    view.lnNo, view.filePos := 0, 2;
    hide Starts, FirstStart;
    view.SyncLn();
    filePos, lnNo := view.filePos, view.lnNo;
    view.LastEntry();
  }
}
