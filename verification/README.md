# C-Menu verification

A Dafny model of the parts of C-Menu whose behaviour is hardest to see from any single function,
with proofs about it.

* **`lf`, the concurrent directory walker** (`Lf*.dfy`, `Sums.dfy`). The mutex, the one condition
  variable that finders and main share, the `active_tasks` counter (lowered outside the lock), the
  `shut_down` flag and the finder threads are a transition system (`LfMachine`): a step is one lock
  operation, one access to shared data or one condition-variable operation, a signal may wake any
  sleeper including main, and wake-ups may be spurious. The directory graph is finite and fixed,
  and links may make it cyclic. The result of every run is compared with a sequential recursive
  traversal (`LfTraversal`). The linked queue and the body of `finder` are also there as classes
  and methods over nodes (`LfQueue`), proved against the same traversal. What the options promise for
  an entry is said once more, of names, types and ids alone (`LfRules`), and the traversal, each turn
  of the loop and every finished run are proved to keep to it exactly.
* **View's lazy line index** (`ViewIndex`). The line table is a growable array filled as a side
  effect of reading characters; it is compared with the buffer split at newlines.
* **View's word wrapping** (`ViewWrap`). The two scanning loops and the splitter of `fmt_line`, against
  rules for where a row has to end and where it may not, which one way of wrapping alone satisfies.
* **Loan arithmetic** (`Loan`, `LoanTable`, `LoanRate`, `Currency`). Annuity formulas, the
  amortisation loop, Newton's iteration and the comma printer with its filter, with real numbers
  for doubles.
* **Menu hot keys** (`MenuLines`, `MenuLetters`, `MenuKeys`). What a description means, which letter
  each line gets and how that ends; the description parser with both its passes, and the keys.
* **Substring replacement** (`RepSubstring`). The two-pass replacement into a buffer sized before.

`Helpers` holds what several of them need.

## Results that go against the documentation or a caller's expectation

Where the code and its documentation differ, the model follows the code.

* `docs/lf.md:76-79` and the comment at `src/lf.c:850-852` say that hidden directories are not
  searched by default. The code walks them whatever the options say (as `docs/CHANGELOG.md:330`
  wants it): `LfFilters.HiddenOptionsVisit`, with a graph where the hidden directory is visited in
  `LfFilters.HiddenDirectoryVisited`.
* The thread clamp at `src/lf.c:553-560` leaves no finder exactly when more than one thread is asked
  for on a single processor, and `lf` then hangs: `LfTheorems.ClampHangs`. With one finder or more
  every run completes.
* `docs/lf.md:152-161` lets the user choose the number of threads, as `-T7` at `docs/lf.md:228`. The
  request is met exactly if it is for one thread, for as many as there are processors, or for one less;
  any other is answered with one less than there are processors: `LfTheorems.ThreadsChosen`.
* `sync_ln`, going forward inside the table, goes to the end of the table. That is the first line
  start at or after the position exactly when the entry before the last lies before the position:
  `ViewIndex.View.SyncLn`, with an input where it is not in `ViewIndex.OvershootExample`. Going back
  agrees with the lookup of `line_number` wherever that is right: `ViewIndex.View.SyncedBack`.
* `line_number` searches the whole allocation, not the part in use. On a full table it is right. On a
  table that is not, with unused slots zero, it is right for a position exactly when the position is
  not behind the last used slot that the search can look at; and it is right for all positions up to
  a bound exactly when it is right for the bound: `ViewIndex.SearchRightExact`,
  `ViewIndex.SearchRightUpTo`. A table less than half full gives a wrong line for every position,
  the first one of the file included (`ViewIndex.HalfEmptyWrong`): in a file of three lines
  the second line is found in line 1023 (`ViewIndex.LookupExample`), and `go_to_percent` goes on from
  there (`ViewIndex.View.GoToPercent`).
* `fmt_line` puts an empty row in front of a line that begins with a word too wide for the window:
  `ViewWrap.EmptyRow`. At the end of a line a word needs a column more than elsewhere
  (`src/view_engine.c:2163-2169`), so that rows are not filled alike: `ViewWrap.View.FmtLine`.
* `calculate_i`, where more is paid back than was lent, divides by zero or goes to -100% a month or
  below exactly when its first step does (`LoanRate.StartableIff` says when). Otherwise it ends: at a
  positive rate when the derivative at its starting value is positive, and below zero when it is
  negative, as for 1000 lent for twelve payments of 100: `LoanRate.CalculateI`,
  `LoanRate.RunsBelowZero`.
* The balances of the amortisation table fall exactly when the rate is not below -100% a month, or the
  payment is just the first interest, or there is one row at most: `LoanTable.Amort.Table`,
  `LoanTable.FallsWhen`, with a loan whose balance rises in `LoanTable.RisesExample`.
* `rep_substring`, given a target that is not empty, returns the replacement exactly when the text and
  the inserted text are not empty and either the target does not occur; or the inserted text does not
  contain it, the first two arguments are not one pointer, and the target is the whole text or the
  copying goes well. It does when the growth stays below 2^32, no line break stands in the inserted text
  or around the occurrences, and the inserted text and the text after the last occurrence are shorter
  than 256 characters; and any allocation made must succeed: `RepSubstring.ResultIsReplaced`, with
  inputs on the other side in `RepSubstring.RefusedExample` and `RepSubstring.TailLost`. Where the
  growth reaches 2^32, and only there, the buffer is too small and the last copy starts outside of
  it: `RepSubstring.SizeSuffices`, `RepSubstring.LastWriteInside`, with an input in
  `RepSubstring.SizeWraps`.
* `docs/CHANGELOG.md:578` says that a free letter is looked for from code 0x21 on; the code starts at
  `'0'`, and finds the first free letter of all exactly when those from 0x21 to 0x2f are taken:
  `MenuLetters.FirstFreeOfAll`. A menu with two items "a" gives `'0'` to the second while `'!'` is free:
  `MenuKeys.MarkLeftFree`, `MenuKeys.RepeatedMenu`. So parsing gives up for want of letters while some
  may be free. It does exactly when, with the letters given to the lines before, a choice has none
  reserved, none usable in its text, and none is free from `'0'` on: `MenuKeys.Menu.AllotLetters`, where
  the way of ending is unique by `MenuLetters.EndsUnique`. That takes 79 lines, and no menu of more than
  94 lines is parsed.
* A menu item may be given the letter `?`, which the key handling takes for help. Every other letter
  runs its own item: `MenuKeys.LetterRunsItsLine`, with such a menu in `MenuKeys.QuestionMarkMenu`.
* A description is read outside of its texts and tables where a command follows a lone `-` or `_` and,
  unless letters run out before, where the last choice has no command or the first letter to be
  considered in a text has a code beyond 126: the outcome `Faulted` of
  `MenuKeys.Menu.ParseMenuDescription`. A description of commanded choices, 78 at most, in characters
  up to that code, with no lone designator, is always parsed: `MenuKeys.ParsedAlways`.

## Model

| member | source | states |
|---|---|---|
| LfTraversal.ChildRank | src/lf.c:986-1048 | enqueuing a child uses up a directory id that was new on its path, so the traversal ends even where links form cycles |
| LfTraversal.DepthBound | src/lf.c:986-1035 | a task with a distinct history is no deeper than the number of directories (one more if it cannot be opened), and stays under a positive depth limit |
| LfTraversal.HistoryIsPath | src/lf.c:1036-1047 | history[0..depth) is exactly the sequence of ids that the entries on the path from the base resolve to |
| LfTraversal.VisitedIffDescends | src/lf.c:857-1061 | the traversal visits a task if and only if a chain of directory entries leads to it from the base |
| LfTraversal.ScannedIffReported | src/lf.c:913-1053 | scan_file gets a (path, type) pair if and only if an entry of a reachable directory passes the filters with it |
| LfPaths.UnderOne | src/lf.c:916-917 | a path lies under one name of a directory only |
| LfPaths.WalkOnce | src/lf.c:857-1061 | the traversal visits no path twice and scans no path twice |
| LfFilters.HiddenOptionsVisit | src/lf.c:962-973 | the options for hidden names do not change which directories are visited |
| LfFilters.HiddenDirectoryVisited | src/lf.c:962-1048 | a hidden directory that the default options do not keep from being visited |
| LfFilters.ScansFiltered | src/lf.c:926-1052 | whatever is scanned is an entry of a reachable directory, is hidden only if allowed or a directory, is hidden if only hidden names are wanted, keeps its own type if links are not followed, and is not "." or ".." if a directory |
| LfFilters.DepthLimit | src/lf.c:1034-1035 | a depth limit leaves out exactly the directories at that depth and below |
| LfRules.ExamineScans | src/lf.c:913-1053 | one turn of the loop scans an entry if and only if it is due: readable; as a file, hidden names if included and others unless hidden ones only are wanted; as a directory, if it may be entered; with the type of a link's target exactly if links are followed |
| LfRules.ExamineVisits | src/lf.c:968-1048 | it makes a task if and only if the entry counts as a directory, is not "." or "..", its id is not in history[0..depth), and the depth limit is not reached; the task has path, depth and history of the child |
| LfRules.ScannedExactly | src/lf.c:857-1061 | scan_file gets a path and a type if and only if an entry of a visited directory is due to be scanned so |
| LfRules.VisitedExactly | src/lf.c:857-1061 | a task is visited if and only if it is the base or stands for an entry of a visited directory that is due to be visited |
| LfRules.EntryScannedExactly | src/lf.c:913-1053 | under proper names, each entry of each visited directory is scanned if and only if it is due, and as the type it is due as |
| LfRules.EntryVisitedExactly | src/lf.c:913-1053 | under proper names, the task of each entry of each visited directory is visited if and only if it is due |
| LfSafety.StartInv | src/lf.c:566-579 | the state after the base task is enqueued satisfies the invariant |
| LfSafety.ActExclusive | src/lf.c:757-843 | no step of a finder lets two threads own the mutex |
| LfSafety.ActShut | src/lf.c:803-829 | shut_down is set only when the queue is empty and no finder holds a task, and stays true to that |
| LfSafety.ActLive | src/lf.c:803-825 | no step of a finder leaves everybody asleep or bound to sleep while the walk is on, even if the single signal wakes main |
| LfSafety.ActBalance | src/lf.c:757-1061 | for each step, what is logged, queued and owed by the thread stays the same, happening by happening |
| LfSafety.ActInv | src/lf.c:757-1061 | every step of a finder keeps the invariant |
| LfSafety.MainInv | src/lf.c:576-586 | every step of main keeps the invariant |
| LfSafety.StepInv | src/lf.c:576-1061 | every step, signals and spurious wake-ups included, keeps mutual exclusion, the exact count, sound shutdown, liveness and conservation |
| LfProgress.NoDeadlock | src/lf.c:580-843 | in every state of the invariant that is not final, some thread can take a step that is not a spurious wake-up |
| LfProgress.StepDrops | src/lf.c:576-1061 | every step other than a spurious wake-up lowers a potential, and a spurious wake-up raises it by no more than a constant |
| LfTheorems.RunInv | src/lf.c:576-1061 | the invariant holds in every state of every run |
| LfTheorems.ActiveTasksExact | src/lf.c:803-1058 | active_tasks is at any moment the number of finders holding a task |
| LfTheorems.NoLostWakeup | src/lf.c:778-825 | while the walk is on, some finder is neither asleep nor committed to sleep; after shutdown nobody sleeps except before the broadcast that is due |
| LfTheorems.ShutdownIsFinal | src/lf.c:803-829 | once shut_down is set the queue stays empty, no finder holds a task, and nothing more is visited or scanned |
| LfTheorems.ReleasedIsComplete | src/lf.c:580-586 | when main is released, the visits and scan_file calls of the run are those of the sequential traversal, each as often, for any graph, thread count and schedule |
| LfTheorems.ReleasedExactly | src/lf.c:580-586 | when main is released, what the run has scanned and visited is exactly what was due by the options, said without the loop |
| LfTheorems.NothingTwice | src/lf.c:857-1061 | at no moment of any run has a path been visited twice or scanned twice |
| LfTheorems.VisitedTasks | src/lf.c:986-1048 | every task a run visits lies on a chain of entries from the base, its history lists the ids on that chain, all different, and its depth is bounded |
| LfTheorems.RunsAreFinite | src/lf.c:576-1061 | spurious wake-ups apart, a run has no more steps than a bound computed from the graph and the thread count |
| LfTheorems.NoThreadsHang | src/lf.c:576-583 | without finders main falls asleep for ever, with nothing visited |
| LfTheorems.CompletesIffThreads | src/lf.c:576-586 | every run that cannot go on has finished with the complete result if and only if there is at least one finder |
| LfTheorems.ClampHangs | src/lf.c:552-560 | the clamp leads to a hang if and only if there is one processor and more than one thread is asked for |
| LfTheorems.ThreadsChosen | src/lf.c:552-560 | the default count is 40 parts in 99 of the processors and one more; which requests are met, and what the others get |
| LfQueue.WorkQueue.Enqueue | src/lf.c:757-780 | the linked queue with its two end pointers refines a FIFO sequence: append |
| LfQueue.WorkQueue.Dequeue | src/lf.c:830-842 | the same for removing the front; the last removal clears both pointers |
| LfQueue.CycleFound | src/lf.c:986-1004 | the cycle check finds an id if and only if it is in history[0..depth) |
| LfQueue.MakeChild | src/lf.c:1036-1047 | a child gets a history of its own: the parent's first depth ids, then its own |
| LfQueue.ProcessEntry | src/lf.c:913-1053 | one turn of the readdir loop over nodes enqueues a task and reports a scan if and only if they are due by the options, and is the turn of the traversal |
| LfQueue.ProcessTask | src/lf.c:874-1058 | one dequeued directory is visited, its scans are made in order, and its children are appended in order |
| LfQueue.WalkSplits | src/lf.c:913-1053 | a directory's traversal is its scans and the traversals of its children |
| LfQueue.FinderAlone | src/lf.c:857-1061 | one finder on its own, in queue order, empties the queue and does exactly what the depth-first traversal does |
| ViewIndex.StartsExact | src/view_engine.c:1976-1994 | the line starts up to a position are 0 and the positions just after newlines, in increasing order, and no others |
| ViewIndex.TextOfLine | src/view_engine.c:1777-1821 | reading from the n-th line start gives the n-th piece of the buffer split at newlines, with carriage returns removed |
| ViewIndex.SearchAscending | src/view_engine.c:1914-1929 | on an ascending table the binary search finds the line that the position lies in |
| ViewIndex.SearchBeyond | src/view_engine.c:1914-1929 | where all entries still to be looked at lie before the position, the search runs to the last slot, used or not |
| ViewIndex.SearchOnRight | src/view_engine.c:1914-1929 | what a search that has only gone right so far comes to, by the last used slot it can still look at |
| ViewIndex.SearchRightExact | src/view_engine.c:1914-1929 | a position is looked up rightly if the table is full or the position is not behind the last used slot the search can look at, whatever the unused slots hold; and only then, if they hold no more than the position |
| ViewIndex.SearchRightUpTo | src/view_engine.c:1914-1929 | with zero in the unused slots, all positions up to a bound are looked up rightly if and only if the bound is |
| ViewIndex.SearchRightIffFull | src/view_engine.c:1914-1929 | over all positions, those behind the end of the file included, the search is right if and only if every slot is in use |
| ViewIndex.HalfEmptyWrong | src/view_engine.c:1914-1929 | in a table less than half full every position ends up in the middle or in the last slot, and none is looked up rightly |
| ViewIndex.FreshTableWrong | src/view_engine.c:1914-1948 | in the table as it is allocated, position 0 is found in line 511 |
| ViewIndex.View.constructor | src/view_engine.c:1938-1948 | a fresh table agrees with the buffer |
| ViewIndex.View.IncrementLn | src/view_engine.c:1976-1994 | at a newline the table grows, inside its allocation, by exactly the new line start, or was there before |
| ViewIndex.View.GetNextChar | src/view_engine.c:53-66 | the next character that is not a carriage return is read, and index and line number stay in agreement with the position |
| ViewIndex.View.GetPrevChar | src/view_engine.c:76-87 | the previous character that is not a carriage return is found, or the beginning of the data |
| ViewIndex.View.GetLine | src/view_engine.c:1777-1821 | for any indexed line number, the line of that number is read whatever was read before, the line number is restored, and blank lines are squeezed behind it; of a line longer than the input buffer the first characters are read, and reading stops one character further, or where squeezing from there stops |
| ViewIndex.View.SyncLn | src/view_engine.c:2008-2033 | what synchronising leads to in each case, for any slot of the allocation as line number, with the exact condition under which going forward inside the table overshoots |
| ViewIndex.View.SyncedBack | src/view_engine.c:1914-2028 | where synchronising stays or goes back, its line is the one the position lies in, and the lookup gives the same wherever it is right |
| ViewIndex.OvershootExample | src/view_engine.c:2008-2033 | a file of three lines where synchronising at the second line start ends behind the third line |
| ViewIndex.View.IndexAll | src/view_engine.c:1826-1829 | after going to the end of the file the table has one entry for every newline |
| ViewIndex.View.LineNumber | src/view_engine.c:1914-1929 | the loop computes the search; its result is the line of the position under the exact condition of the search |
| ViewIndex.View.GoToPosition | src/view_engine.c:1897-1901 | the line looked up stays as it is when synchronised: that of the position where the lookup is right, and the middle or the last slot in a table less than half full |
| ViewIndex.View.GoToPercent | src/view_engine.c:1853-1868 | for any percentage the page starts the scrolling lines before the line looked up, which is that of the position where the lookup is right, and the middle or the last slot in a table less than half full |
| ViewIndex.LookupExample | src/view_engine.c:1914-1929 | a file of three lines, indexed to its end, in which the position of the second line is found in line 1023 |
| ViewWrap.ShortWordWhole | src/view_engine.c:2146-2173 | a maximal run without spaces or hyphens that is no wider than the window lies wholly in one subline |
| ViewWrap.WrappedOnce | src/view_engine.c:2118-2280 | the rules for where sublines end leave one way of wrapping a line |
| ViewWrap.EmptyRow | src/view_engine.c:2216-2232 | a subline but the last is empty if and only if it is the first and the line begins with a word that finds no room |
| ViewWrap.CellsAre | src/view_engine.c:2120-2211 | the cells are made by the tokens other than escapes, all of them, in their order, with their widths |
| ViewWrap.ChunkCut | src/view_engine.c:2231-2263 | where the splitter cuts, the line is full or not one cell more fits, and what remains may be split again |
| ViewWrap.View.Fill | src/view_engine.c:2120-2211 | the scanning loop keeps cell and column counts of line and pending word exact, takes no word for which there is no room, and stops only at the end or where there is none |
| ViewWrap.View.TakeChunk | src/view_engine.c:2231-2245 | as many cells as fit: it stops only where the next cell is too wide for what is left |
| ViewWrap.View.SplitLong | src/view_engine.c:2231-2263 | the splitter ends; the sublines it commits end neither too early nor too late, and the rest fits |
| ViewWrap.View.FmtLine | src/view_engine.c:2118-2280 | wrapping ends on every tab-free line; the sublines, or the whole line where there are none, follow each other without gap or overlap and make up all the cells, each as wide as its cells and no wider than the window; each ends where the next word finds no room, the row is full, or not one cell more of an overlong word fits, and none goes past such a place: the one way of wrapping |
| Loan.PvPmtInverse | src/iloan.c:281-282 | calculate_pv and calculate_pmt undo each other, both ways |
| Loan.ScheduleMeetsFormula | src/iloan.c:345-346 | with the computed payment the balance after any number of payments is the one of the annuity formula |
| Loan.ScheduleEnds | src/amort.c:67-84 | that balance is positive until the last payment and then exactly zero |
| LoanTable.MonthProgress | src/amort.c:73-84 | a month keeps the table adding up, on schedule, and together equal to the loan |
| LoanTable.MonthFalls | src/amort.c:73-80 | a month keeps the balances falling as long as the payments are steady; otherwise the second month's balance rises |
| LoanTable.FallsWhen | src/amort.c:67-84 | the balances of the whole table fall if and only if a condition on the loan holds |
| LoanTable.RisesExample | src/amort.c:50-84 | an admitted loan whose balance rises |
| LoanTable.FormulaAdmitted | src/amort.c:50-54 | the computed payment covers the first month's interest, so it is admitted |
| LoanTable.FormulaTable | src/amort.c:67-84 | with the computed payment the table has exactly n rows with the balances of the formula, and ends at exactly zero |
| LoanTable.Amort.PayMonth | src/amort.c:73-80 | interest, principal, payment and balance of one row, with the last payment cut to what is owed |
| LoanTable.Amort.Table | src/amort.c:66-86 | for any admitted payment balances are never negative and fall exactly where the loan says so, each payment is interest plus principal, principal paid and balance make up the loan, and the printed totals are the interest of each calendar year and together all the interest |
| LoanRate.Bernoulli | src/iloan.c:320-328 | Bernoulli's inequality, on which the convexity of the iterated function rests |
| LoanRate.Tangent | src/iloan.c:320-328 | the iterated function lies strictly above each of its tangents, the slope being the one the loop computes |
| LoanRate.NextIterate | src/iloan.c:320-330 | after one step the function is not negative, and the iterate is on the side of zero that the slope points to |
| LoanRate.RateBelow | src/iloan.c:320-330 | a step along a rising tangent never passes a rate |
| LoanRate.StaysRight | src/iloan.c:320-330 | iterates with a rising tangent stay positive with a rising tangent and never increase once the function is not negative |
| LoanRate.StaysLeft | src/iloan.c:320-330 | iterates below zero stay there and move towards zero |
| LoanRate.StartableIff | src/iloan.c:317-330 | when the first step is defined and stays above -100% a month |
| LoanRate.FixedPointIsRate | src/iloan.c:320-346 | a rate other than zero is a fixed point of the iteration if and only if calculate_pmt returns the given payment for it |
| LoanRate.CalculateI | src/iloan.c:302-336 | the iteration divides by zero or leaves the domain if and only if its first step does; otherwise it ends one step of at most 1e-7 after an iterate; with a positive starting slope the result is positive, not below any rate, as close to each rate as its slope allows, and a zero of the function up to 1e-7 of the loan per payment; with a negative one it is negative; and it is zero if the payments do not exceed the loan |
| LoanRate.Residual | src/iloan.c:321-331 | after a step along a rising tangent the function is no further from zero than the step is long, times the loan per payment |
| LoanRate.RunsBelowZero | src/iloan.c:317-330 | a loan whose rate lies above the starting value while the slope there is negative |
| Currency.CommasEveryThree | src/iloan.c:384-395 | counted from the right exactly every fourth character is a comma, and none is in front |
| Currency.CopyBack | src/iloan.c:378-399 | the right-to-left copy, inside its buffer, is the mirror image of the formatted text |
| Currency.FormatCurrency | src/iloan.c:369-406 | sign, digits with commas every three left of the point, point and cents, without the padding |
| Currency.Numbers | src/iloan.c:425-433 | what is left are the digits, points and minus signs of the text, all of them and nothing else, in their order, terminated, with the rest of the buffer unchanged |
| Currency.NumericPicks | src/iloan.c:425-433 | the same of the filter, by the positions of the characters |
| Currency.NumbersUndoFormat | src/iloan.c:369-433 | filtering the formatted text gives back the text without commas |
| Currency.FormatInjective | src/iloan.c:369-406 | different amounts are formatted differently |
| MenuKeys.Menu.Command | src/parse_menu_desc.c:77-113 | a '!' line makes the last line a choice if it is none yet: shown behind " x - " without its designator, up to 255 characters, and with the designated letter if that can be typed, is not 'q' and is no other line's; it reads past the text exactly for a lone designator |
| MenuLines.LineIs | src/parse_menu_desc.c:92-109 | the same of the line in the model of the description |
| MenuLines.MeaningfulPicks | src/parse_menu_desc.c:56-76 | of a description count its ':' and '!' lines with a text, all of them, in their order |
| MenuLines.TitleFirst | src/parse_menu_desc.c:126-131 | the title is the first ':' line, and the entries come from what follows it |
| MenuLines.EntriesTrouble | src/parse_menu_desc.c:115-124 | a description is given up at its first choice followed by a choice, or cannot be read at its first command for a lone designator, whichever comes first |
| MenuLines.EntriesInOrder | src/parse_menu_desc.c:77-143 | without either it means its ':' lines in their order, each with the line behind it as its command |
| MenuKeys.Menu.ReadDescription | src/parse_menu_desc.c:56-161 | the directive loop gives up exactly where a choice follows a choice without command, reads past a text exactly at a lone designator, and otherwise leaves the lines of the entries that the description means, reserved letters included |
| MenuKeys.Menu.AllotLetter | src/parse_menu_desc.c:163-214 | a line gets its reserved letter, or the first character of its text that is no space and still to be had, or the first letter from '0' on still to be had; shown where the text has it, or else in front |
| MenuLetters.AllottedGives | src/parse_menu_desc.c:163-214 | the same of a turn in the model of the second pass |
| MenuKeys.Menu.AllotLetters | src/parse_menu_desc.c:163-214 | the second pass is parsed, out of letters or faulting if and only if a turn reached by the letters given before ends it in that way; letters run out with more than 78 lines only |
| MenuLetters.AllottedUnique | src/parse_menu_desc.c:163-214 | the letters and their places are determined by the lines as first read |
| MenuLetters.EndsUnique | src/parse_menu_desc.c:163-214 | the second pass over given lines ends in one way only |
| MenuLetters.FirstFreeOfAll | src/parse_menu_desc.c:198-209 | the free letter found is the first from '!' on if and only if all from '!' to '/' are taken |
| MenuLetters.NeverFaults | src/parse_menu_desc.c:163-214 | with every choice commanded and no character beyond the letter table the second pass never reads where nothing is |
| MenuLetters.RunsOutLate | src/parse_menu_desc.c:198-209 | if no letter is left there are more than 78 lines |
| MenuLetters.LettersBound | src/parse_menu_desc.c:163-214 | a menu with a letter for every line has 94 lines at most |
| MenuLetters.HotKeys | src/parse_menu_desc.c:163-214 | no two lines share a letter, none has 'q', and each letter stands at its recorded place |
| MenuKeys.Menu.ParseMenuDescription | src/parse_menu_desc.c:27-224 | both passes together on any description: it is given up or stopped where its meaning says so, and otherwise ends as the second pass over the lines of its entries does; if parsed, there is one commanded line for every entry, 94 at most, with letters all different |
| MenuKeys.ParsedAlways | src/parse_menu_desc.c:163-214 | 78 commanded choices or fewer, in characters of the letter table, leave the second pass no way of ending but parsed |
| MenuKeys.Menu.Press | src/menu_engine.c:196-281 | Enter runs the current line, '?' gives help, 'q' leaves; any other key runs the first line with that letter, which becomes the current one, and is ignored if there is none |
| MenuKeys.ScanFinds | src/menu_engine.c:267-279 | the scan for a line's letter finds that line and no other |
| MenuKeys.LetterRunsItsLine | src/menu_engine.c:196-281 | the key of a line runs that line if and only if it is not the question mark |
| MenuKeys.QuestionMarkShadowed | src/menu_engine.c:196-281 | a description whose parsed menu has an item with the question mark, for which the key gives help |
| MenuKeys.QuestionMarkMenu | src/menu_engine.c:196-281 | the same from the description through both passes to the key |
| MenuKeys.MarkLeftFree | src/parse_menu_desc.c:198-209 | in any menu both passes leave for a description with the item "a" twice, the second has '0' and '!' is free |
| MenuKeys.RepeatedMenu | src/parse_menu_desc.c:27-224 | that description is parsed to such a menu |
| RepSubstring.FindMeans | src/futil.c:1439-1465 | what strstr finds is an occurrence with none before it, and it fails only where there is none |
| RepSubstring.ReplaceAtFirst | src/futil.c:1453-1471 | splitting at the first occurrence agrees with replacement read character by character, for the result, the count and the tail |
| RepSubstring.ReplaceLength | src/futil.c:1457 | the length of the result |
| RepSubstring.SizeSuffices | src/futil.c:1457 | the buffer holds the result if and only if the growth stays below 2^32 |
| RepSubstring.LastWriteInside | src/futil.c:1457-1472 | the last copy starts inside the buffer if and only if the growth stays below 2^32 |
| RepSubstring.Copy | src/futil.c:537-552 | strnz__cpy copies up to a line break or the limit and terminates, changes nothing else, and writes nothing for a limit of zero |
| RepSubstring.CountOccurrences | src/futil.c:1453-1456 | the first pass counts the replacements |
| RepSubstring.CopyPieces | src/futil.c:1461-1472 | the second pass stays inside the buffer and leaves the pieces up to the first one cut short |
| RepSubstring.UnbrokenReplace | src/futil.c:546-547 | the result has no line break if and only if the inserted text and the text around the occurrences have none |
| RepSubstring.WrittenIsReplaced | src/futil.c:1461-1473 | what the copying pass leaves is the replacement if and only if its arguments are free of line breaks and the two limited texts short enough; otherwise it is a part of it from the left |
| RepSubstring.ResultIsReplaced | src/futil.c:1434-1474 | for every target that is not empty, the result is the leftmost non-overlapping replacement if and only if a condition on the arguments holds |
| RepSubstring.ResultKinds | src/futil.c:1434-1460 | when the result is null, when a write goes past the buffer, and when one of the arguments is returned as it is |
| RepSubstring.RepSubstring | src/futil.c:1434-1474 | the result in every case, null pointers, early returns, any of the four allocations failing and a wrapping growth included; exactly when it is the replacement and exactly when it is null |
| RepSubstring.RefusedExample | src/futil.c:1441-1442 | a replacement that could be copied and is refused |
| RepSubstring.TailLost | src/futil.c:1472 | a text of 257 characters of which one is lost |
| RepSubstring.SizeWraps | src/futil.c:1441-1472 | a text and an inserted text that pass the early returns and for which the copying runs out of the buffer |

## Left out

- `lf`: path buffers of PATH_MAX, failing allocation or thread creation, changes of the file system
  during a walk, a directory that opens at one moment and not at another, the unlocked
  `file_count` and exit status, and everything inside `scan_file` (it is one logged event).
- `lf`: sequentially consistent atomics are taken for granted, as is a base path that is a directory.
- LfPaths.WalkOnce: names in a directory are taken to be distinct and free of slashes, as readdir
  returns them; LfTheorems.NothingTwice likewise.
- LfTheorems.RunsAreFinite: each spurious wake-up may add a constant number of steps; their number
  is up to the system.
- LfQueue.FinderAlone: the linked queue is combined with one thread only; many threads work on the
  queue as a sequence in `LfMachine`.
- ViewIndex: a fresh View is assumed; `initialize_line_table` does not reset `ln_tbl_cnt`. Failing
  reallocation, `search`, paging and scrolling, the second half of `go_to_eof`.
- ViewIndex.View.GetLine: the terminator of a line of PAD_COLS characters or more falls outside the
  input buffer, and is not in the model. A last line without a newline is stated to end the data, not
  to be shown.
- ViewIndex.View.GoToPercent: the page that is then shown.
- ViewWrap: tabs (that branch can leave the loop without progress), zero-width and control
  characters, escape sequences that do not end, wrapping switched off, colours, the text copy beside
  the cells (`sl_s`, which advances by cells in one place and by columns in another), and the fixed
  number of subline slots: sublines are a sequence here. The branch for no safe cell cannot be
  reached with a window of two columns or more and is not in the model.
- Loan arithmetic: rounding, `calculate_n` (logarithms), a number of payments that is not whole,
  prompts and messages. Zero arguments, which the source answers with a message, are excluded.
- LoanRate.CalculateI: after a step that divides by zero or leads to -100% a month or less the source
  goes on with whatever `pow` returns; the model stops there without a result.
- Currency.FormatCurrency: what sprintf makes of the number is a parameter; infinities and
  not-a-number are not amounts.
- RepSubstring: strings of 2^32 characters or more, and what comes of a write past the end of the
  buffer, which is an outcome of its own.
- MenuKeys: reading and trimming of lines, command types, line and column limits of the menu, the
  256 line slots. Lines are values in a sequence, so sharing of a line between two slots is not in
  the model; nor is what comes of a read outside of a text or table, which is an outcome of its own.
- MenuKeys.Menu.Press: function keys, arrows and the mouse.
- `unstr_hex_clr`, the configuration reader and writer, forms, pick lists, the terminal layers and
  process handling.
