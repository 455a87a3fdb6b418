# delta — a Dafny model of the line differ, its formatters and its browser store

delta compares two texts line by line. The model covers five parts:

- **The current engine** (package `delta`: `lib/solution.go`, `sequence.go`,
  `lib/histogram.go`).
  - A `DiffSolution` is a list of `(left, right, source)` rows. The source is
    `<` (deletion), `>` (addition), `=` (equal) or `~` (edited).
  - `SequenceDiffer` is a memoised dynamic-programming aligner.
  - `HistogramDiffer` anchors on rare matching regions, recurses on both sides
    of each region, and diffs the gaps with `SequenceDiffer`.
  - `PostProcess` slides pure addition or deletion runs forward.
- **The formatters**: the ANSI text rendering (`formatter/text.go`) and the
  two-pane HTML rendering for the GUI (`formatter/html.go`).
- **The earlier generation under `delta/`**:
  - `delta/differ.go`: the same recurrence, but ties go the other way.
  - `delta/main.go`: the first differ, which stops at a sentinel last line and
    has its own HTML.
  - `delta/solution.go`: a `PostProcess` with a different rule for where a
    change region starts.
  - `delta/formatter/text.go`: the text rendering over `Raw()`.
- **The browser-side file store** (`delta/static/app/lib/storage.js`). It
  groups received files by working directory under a `_created_at` stamp with
  a one-second window.

## How things are represented

- **Pure data.** Everything is immutable Dafny data: a solution is a
  `seq<Line>`, and the two files a solution records are `Lefts(d)` and
  `Rights(d)`.
- **The recurrence** of `computeOptimal` is the recursive function
  `Align.Score`. Its memo tables are not modelled: a cell's value is the
  function's value. `Align.ModeNeverMatters` proves this is sound, because the
  mode argument never changes a score.
- **One recurrence, two tie rules.**
  - The current differ replaces the best candidate on `>=`, so a later
    candidate wins a tie.
  - The earlier one replaces it only on `>`, so the first candidate keeps it.
  - Both are the same recurrence (`Align`) with a `TieBreak` parameter.
- **PostProcess** is written twice, as a pure function (`Solution.PostProcess`)
  and as the in-place swap loop (`Solution.PostProcessInPlace`). The loop is
  proved to compute the function.
- **Foreign functions are parameters**, and nothing is assumed about them:
  - `strings.TrimSpace` is `trim`;
  - `unicode.IsLetter || unicode.IsNumber` is `isWord`;
  - HTML escaping (`html/template` and `template.HTMLEscapeString`) is `esc`.
- **The browser store**:
  - `localStorage["delta"]` is a `Slot`.
  - JavaScript objects are association lists in key-insertion order
    (`Assoc`).
  - The clock is the parameter `now`, in milliseconds.

## Model

| member | source | states |
|---|---|---|
| Text.SplitLines | sequence.go:13-14 | strings.Split on newlines gives at least one piece, and no piece holds a newline |
| Text.JoinSplitLines | sequence.go:13-14 | joining the pieces with newlines gives back the text, so splitting loses nothing |
| Text.SplitJoinLines | lib/histogram.go:10-11 | splitting a join of newline-free pieces gives back exactly those pieces |
| Text.Decimal | formatter/html.go:117 | strconv.Itoa gives decimal digits that denote the number's magnitude, with no leading zero, preceded by '-' exactly when the number is negative |
| Text.DecimalInjective | formatter/html.go:117 | different numbers print differently, so an lc-N class or a gutter number names exactly one value |
| Solution.AddLine | lib/solution.go:30-32 | exactly one row (a, b, l) is appended and earlier rows are unchanged; the left file grows by a unless l is ">", and the right file grows by b unless l is "<"; the earlier addLine (delta/solution.go, lines 18 to 20) is the same code |
| Solution.AddLineA | lib/solution.go:22-24 | appends exactly (a, "", "<"), which extends the left file only |
| Solution.AddLineB | lib/solution.go:26-28 | appends exactly ("", b, ">"), which extends the right file only |
| Solution.AddSolution | lib/solution.go:34-36 | e's rows follow d's in order, the length is the sum, and each recorded file is the concatenation; the earlier addSolution (delta/solution.go, lines 22 to 24) is the same code |
| Solution.Swap | lib/solution.go:63 | the two rows trade places and every other row stays |
| Solution.SwapPermutes | lib/solution.go:63 | a swap keeps the multiset of rows |
| Solution.ShiftRegion | lib/solution.go:57-69 | the swap loop keeps the length and the rows before p1, and changes the solution only when the guard (an "=" row at p2 whose column for the run's type equals p1's) holds |
| Solution.ShiftRegionKeepsColumns | lib/solution.go:57-69 | sliding a pure "<" or ">" run past equal rows changes neither recorded file |
| Solution.Visit | lib/solution.go:48-80 | one outer iteration keeps the length and re-establishes the loop invariant: a recorded movable region is a pure run that ends at the current index; the last line type becomes the current row's, and rows change only when an "=" row ends a recorded "<" or ">" region |
| Solution.PostProcessPermutes | lib/solution.go:44-81 | PostProcess only swaps rows: the result is a permutation of the input |
| Solution.PostProcessKeepsColumns | lib/solution.go:44-81 | PostProcess leaves both recorded files, Lefts and Rights, unchanged |
| Solution.PostProcessKeepsEditsInPlace | lib/solution.go:51-55 | a solution with no "<" or ">" row is returned unchanged as a whole |
| Solution.PostProcessKeepsEdits | lib/solution.go:43-76 | in any solution every "~" row is at the same index after PostProcess: only "<" and ">" runs and the "=" rows they pass are moved |
| Solution.ShiftRegionInPlace | lib/solution.go:57-69 | the in-place swap loop, with its break at the end of the lines, computes ShiftRegion |
| Solution.PostProcessInPlace | lib/solution.go:44-81 | the in-place outer loop, with its goto, computes PostProcess |
| SolutionExamples.PostProcessShiftsAddition | solution_test.go:8-38 | the addition run B C D E before B C D comes out as A B C D followed by the added E B C D |
| SolutionExamples.PostProcessShiftsDeletion | solution_test.go:40-68 | a deletion run after an "=" row slides forward as the test expects |
| SolutionExamples.PostProcessShiftsDeletionAfterEdit | solution_test.go:70-94 | a deletion run right after a "~" row also slides forward as the test expects |
| Align.ModeNeverMatters | sequence.go:150-216 | with NewMode = 0 the mode argument never changes computeOptimal's value, so memoising by cell alone is sound |
| Align.Choice | sequence.go:163-212 | the recorded move attains the cell's score; with ">=" no later candidate also attains it (align over skip-B over skip-A), and with ">" no earlier one does |
| Align.Table | sequence.go:204-211 | a computed cell is never Unknown; it is "=" exactly when the move pairs equal lines, "~" exactly when it pairs unequal lines, and "<" exactly for skip-A, so ">" exactly for skip-B |
| Align.ScoreIsUpperBound | sequence.go:148-216 | no alignment of the remaining lines scores more than computeOptimal |
| Align.TraceIsOptimal | sequence.go:230-261 | the path the traceback follows is an alignment, and it attains computeOptimal's score |
| Align.Step | sequence.go:232-259 | one getSolution iteration never hits "unset line"; it consumes exactly the lines its row shows and tags the row as the table does |
| Align.Emit | sequence.go:230-261 | the emitted rows' left file is exactly a[i:] and the right file exactly b[j:], and every row is tagged correctly |
| Align.EmitFollowsTrace | sequence.go:230-261 | the emitted rows take the moves of the optimal alignment, in order |
| Align.PrefixLength | sequence.go:120-127 | the shared-prefix loop stops at the first pair that compares unequal, or at the end of either list |
| Align.AddPrefix | sequence.go:120-127 | the shared prefix is copied as "=" rows (a[k], b[k]), after the rows already there |
| Align.PrefixThenTrace | sequence.go:120-135 | Solve's result records exactly a and b, tags every row correctly, and starts with the shared prefix as "=" rows |
| Sequence.LineEqualModes | sequence.go:92-97 | in a file diff, where whitespace is ignored, "=" rows pair lines that are equal once trimmed and "~" rows lines that are not; in a differ from NewSequenceDiffer, "=" rows pair identical lines and "~" rows different ones |
| Sequence.AddLinesB | sequence.go:104-110 | the right-only loop appends ("", l, ">") for every line l of B, in order |
| Sequence.AddLinesA | sequence.go:112-118 | the left-only loop appends (l, "", "<") for every line l of A, in order |
| Sequence.Solve | sequence.go:100-136 | A = [""] gives every line of B as ">" (the empty line is dropped); otherwise B = [""] gives every line of A as "<"; otherwise the rows record exactly A and B, are tagged correctly, and start with the shared prefix |
| Sequence.SequenceDiff | sequence.go:11-18 | an empty left text gives only ">" rows and no left column; otherwise an empty right text gives only "<" rows; in every other case joining a column with newlines gives back its text |
| Sequence.SplitLinesEmpty | sequence.go:104-118 | the right-only and left-only cases fire exactly on an empty text |
| Sequence.SplitLine | sequence.go:20-37 | the words concatenate to the line; no word is empty; every rune of a word but its last is a letter or number, and every word but the last ends in a rune that is neither |
| Sequence.SplitLineUnique | sequence.go:20-37 | splitLine's words are the only well-split words for the line |
| Sequence.DiffLine | sequence.go:39-47 | nil exactly when the product of the word counts exceeds 100000000; otherwise the left file is a's words, the right file b's words, and "=" words are identical |
| Histogram.CreateAHistogram | lib/histogram.go:49-58 | for every trimmed line, the histogram lists the indices in [lo, hi) whose trimmed line it is, each once, in increasing order |
| Histogram.ExpandStart | lib/histogram.go:99-107 | the region grows backwards inside the window until validStart fails or the preceding lines differ |
| Histogram.ExpandEnd | lib/histogram.go:109-117 | the region grows forwards inside the window until validEnd fails or the following lines differ |
| Histogram.Candidates | lib/histogram.go:82-130 | the inner loop keeps the best match a region that matches inside the window, and moves nextB no further than the window's end |
| Histogram.LongestSubstring | lib/histogram.go:64-134 | the result is nil, or a non-empty region inside the window, with equal lengths on both sides, whose paired lines are equal after trimming |
| Histogram.LongestSubstringFinds | lib/histogram.go:64-134 | a region is found exactly when some line of B's window equals some line of A's window after trimming |
| Histogram.SolveRange | lib/histogram.go:136-153 | nil when either side has at most one line; otherwise an ordered chain of matching regions |
| Histogram.ChainOrdered | lib/histogram.go:139-153 | the regions of solveRange match and are pairwise disjoint and strictly increasing in both A and B |
| Histogram.CopyRegion | lib/histogram.go:168-171 | a matched region is copied as "=" rows with the A line in both columns |
| Histogram.Fill | lib/histogram.go:162-180 | when no gap is a lone empty line, the stitched rows record the rest of A exactly and the rest of B up to trimming |
| Histogram.Solve | lib/histogram.go:155-183 | as written: when A is the single empty line, only ">" rows, recording B; when B is, only "<" rows, recording A; when no gap is a lone empty line, the result records A and, up to trimming, B |
| Histogram.FillExact | lib/histogram.go:162-180 | with gaps diffed by the traceback alone, the stitched rows record the rest of A, and the rest of B up to trimming, for every chain |
| Histogram.SolveExact | lib/histogram.go:155-183 | corrected: the whole-text case stays (only ">" rows when A is the single empty line, only "<" rows when B is); otherwise the result records A exactly and B up to trimming, for every input |
| Histogram.SolveExactAgrees | lib/histogram.go:155-183 | unless some gap is a lone empty line, the corrected and the as-written Solve give the same rows |
| Histogram.HistogramDiff | lib/histogram.go:9-13 | as the code runs: an empty left text shows only additions, which record the right text's lines; an empty right text shows only deletions; when no gap is a lone empty line, the left column joined with newlines is the left text and the right column is the right lines up to trimming |
| Histogram.HistogramDiffExact | lib/histogram.go:9-13 | corrected: the same one-sided display for an empty text; for every non-empty left text the left column joined with newlines is the left text |
| Histogram.BlankSolveDropsLine | lib/histogram.go:164-166 | on A = x,"",y and B = x,z,y the code as written loses the blank line of A, and the corrected version keeps it |
| TextFormat.ColoredText | formatter/text.go:10-25 | the output is empty exactly when every row is a non-equal row with both columns empty |
| TextFormat.ColoredTextAppend | formatter/text.go:12-23 | the output of a concatenation is the concatenation of the outputs, in Lines order |
| TextFormat.RenderLineRows | formatter/text.go:13-22 | an equal "=" row prints one context row; any other row prints a "-" row exactly when its left column is non-empty, then a "+" row exactly when its right column is non-empty |
| TextFormat.ParseColoredText | formatter/text.go:10-25 | for newline-free rows, the output reads back into exactly the rows shown, so the rendering is unambiguous |
| TextFormat.ShownSides | formatter/text.go:13-22 | reading the context and "-" rows gives the left file, and the context and "+" rows the right file, without the empty entries of changed rows |
| TextFormat.WhitespaceChangePrintsBoth | formatter/text.go:13-22 | an "=" row whose columns differ prints a "-" row and a "+" row |
| OldTextFormat.ColoredText | delta/formatter/text.go:10-25 | the earlier buffer loop over Raw() prints the same output as the later formatter, so the output also reads back into the rows shown |
| HtmlFormat.NextChanged | formatter/html.go:63-78 | the first changed row at or after i, or none |
| HtmlFormat.NextChange | formatter/html.go:61-78 | nextChange[i] lies in 0..11 and is 0 exactly when row i is changed |
| HtmlFormat.NextChanges | formatter/html.go:63-78 | the backward loop, with lastChangedLine starting at len + 10, fills every nextChange[i] with min(11, distance to the next changed row) |
| HtmlFormat.LastChanged | formatter/html.go:85-116 | the last row before i that is not an equal "=" row, or -11 when there is none |
| HtmlFormat.Closest | formatter/html.go:104-116 | closestChange is 0 for a row that is not an equal "=" row, and otherwise -1 or in 1..10 |
| HtmlFormat.ChangedIsNotUnchanged | formatter/html.go:66-73 | for rows with a real source, the backward pass's "changed" is exactly the forward pass's "not an equal = row" |
| HtmlFormat.HiddenIffFarFromChanges | formatter/html.go:104-116 | a row is hidden (-1) exactly when every row within ten of it is an equal "=" row |
| HtmlFormat.ClosestChanges | formatter/html.go:85-117 | the forward loop computes closestChange for every row |
| HtmlFormat.WordVisible | formatter/html.go:39-53 | a "<" word shows its escaped left text on the left and nothing on the right, a ">" word the reverse, and "=" and "~" words show on both sides |
| HtmlFormat.LeftPiecesVisible | formatter/html.go:36-56 | the text the left rendering shows is the escaped left words concatenated: spans mark words and never change the text |
| HtmlFormat.RightPiecesVisible | formatter/html.go:36-56 | the text the right rendering shows is the escaped right words concatenated |
| HtmlFormat.EditContents | formatter/html.go:133-140 | when DiffLine gives nil, the contents fall back to the escaped raw left and right lines |
| HtmlFormat.EditShowsWholeLine | formatter/html.go:130-144 | without escaping, an edited row's panes show exactly its left and right lines |
| HtmlFormat.RenderRow | formatter/html.go:118-159 | li grows for every row except ">" and equal-column rows without a source, and ri for every row except "<" and those rows |
| HtmlFormat.RenderRows | formatter/html.go:91-160 | with real sources, the loop adds the number of left-file lines to li and the number of right-file lines to ri |
| HtmlFormat.ReplaceTabs | formatter/html.go:167-168 | markup without a tab is left unchanged |
| HtmlFormat.ReplaceTabsAppend | formatter/html.go:167-168 | tab replacement works piece by piece, so every tab of the panes becomes a delta-tab span |
| HtmlFormat.ReplaceTab | formatter/html.go:167-168 | a tab becomes exactly one delta-tab span |
| HtmlFormat.Layout | formatter/html.go:80-160 | with real sources, li ends at the number of left-file lines and ri at the number of right-file lines |
| HtmlFormat.HTML | formatter/html.go:162-175 | the right gutter and pane alone when the left file is empty, the left alone when only the right file is empty, and otherwise both |
| HtmlFormat.EmptyLeftShowsRightOnly | formatter/html.go:169-171 | the histogram diff of an empty text against another renders only the right pane |
| OldSolution.OldVisit | delta/solution.go:40-72 | a region start is recorded only on a transition from an "=" row to another row, and rows change only when an "=" row ends a "<" or ">" region |
| OldSolution.PostProcessPermutes | delta/solution.go:36-73 | the earlier PostProcess also only swaps rows |
| OldSolution.PostProcessKeepsEditsInPlace | delta/solution.go:43-47 | without "<" or ">" rows the earlier PostProcess changes nothing |
| OldSolutionExamples.OldShiftsAddition | delta/solution.go:36-73 | the earlier version also gives the addition test's expected output |
| OldSolutionExamples.OldShiftsDeletion | delta/solution.go:36-73 | the earlier version also gives the deletion test's expected output |
| OldSolutionExamples.OldKeepsDeletionAfterEdit | delta/solution.go:64-68 | a deletion run right after a "~" row is never moved by the earlier version, which is exactly where the later version differs |
| OldSolutionExamples.OldScramblesMixedRegion | delta/solution.go:49-68 | on "= a, < x, > y, = x, = ''" the earlier version moves the addition into the deletion's swap and changes both recorded files |
| OldSolutionExamples.OldMovesEdit | delta/solution.go:49-68 | on "= a, < x, ~ y/z, = x, = y" the earlier version counts the "~" row in the deletion's region and carries it from index 2 to index 4 |
| OldSolutionExamples.LaterKeepsMixedRegion | lib/solution.go:72-76 | the later version starts a new region at the addition and leaves that input unchanged |
| OldDiffer.Solve | delta/differ.go:67-86 | the rows record exactly A and B; there are no Unknown rows; "=" rows are equal after trimming and "~" rows are not; the shared prefix comes first as "=" rows |
| OldDiffer.Diff | delta/differ.go:9-15 | joining either column with newlines gives back that text, with no special case for an empty text |
| DifferTies.TieChoices | delta/differ.go:115-137 | on p q against q p, where deleting first and adding first tie, the strict ">" of the earlier differ records skip-A at the first cell and the ">=" of the later one records skip-B |
| DifferTies.TiesGoDifferentWays | delta/differ.go:67-213 | the earlier differ prints "< p, = q, > p" and the later one "> q, = p, < q" for the same input |
| OldestDiffer.AddLineA | delta/main.go:194-196 | appends a row with only a left side |
| OldestDiffer.AddLineB | delta/main.go:198-200 | appends a row with only a right side |
| OldestDiffer.AddLine | delta/main.go:202-204 | appends a row with both sides, so no row has two missing sides |
| OldestDiffer.Choice | delta/main.go:72-107 | the recorded move is allowed and attains the score; with strict ">", ties favour skip-A, then skip-B |
| OldestDiffer.Step | delta/main.go:159-185 | one iteration consumes exactly the lines its row shows, never the sentinel last line, and the row's score plus the next cell's score is the cell's score |
| OldestDiffer.Emit | delta/main.go:156-188 | the rows' left sides are a[i:len(a)-1] and right sides b[j:len(b)-1], no row lacks both sides, and the rows score exactly computeOptimal |
| OldestDiffer.ScoreIsBest | delta/main.go:59-108 | no row sequence with those left and right sides scores more than computeOptimal |
| OldestDiffer.Solve | delta/main.go:54-57 | for non-empty inputs the result leaves out the last element of each, and it is optimal among all well-formed solutions with the same sides |
| OldestDiffer.Diff | delta/main.go:9-15 | the left sides followed by the text's last line, joined with newlines, give back the text, and likewise on the right |
| OldestDiffer.DiffDropsLastLine | delta/main.go:156-188 | diffing "x\ny" with itself shows only the line x on each side |
| OldestDiffer.RenderLine | delta/main.go:212-239 | li grows exactly for rows with a left side and ri exactly for rows with a right side |
| OldestDiffer.RenderLines | delta/main.go:206-240 | over well-formed rows the counters end at the number of left sides and the number of right sides |
| OldestDiffer.SolveRenders | delta/main.go:206-247 | rendering Solve's result never meets a row without sides, and the counters end at len(a)-1 and len(b)-1 |
| OldestDiffer.PairClasses | delta/main.go:225-238 | a line with both sides is rendered in each pane with the class line-match exactly when its two sides are equal |
| Assoc.Get | delta/static/app/lib/storage.js:33-36 | reading a key gives nothing exactly when the key is absent, and otherwise a stored value |
| Assoc.Put | delta/static/app/lib/storage.js:43-45 | an assignment stores the value under the key and changes no other key; a present key keeps its place, a new key is appended, and keys stay distinct |
| Storage.GetGlobalStore | delta/static/app/lib/storage.js:18-29 | afterwards the slot always holds an object, and the caller gets that object; a stored object comes back unchanged, and anything else becomes an empty one |
| Storage.GetStore | delta/static/app/lib/storage.js:31-37 | the store is written back as read, so no directory is created; the result is the directory's group, or none when it is absent |
| Storage.GetStoreTwice | delta/static/app/lib/storage.js:31-37 | a second getStore sees the same slot and group as the first |
| Storage.UpdateStore | delta/static/app/lib/storage.js:39-47 | the file is stored under its path in its directory's group, and every other directory is unchanged |
| Storage.UpdateStoreKeeps | delta/static/app/lib/storage.js:42-45 | while the group is open, all its keys and every other file in it are kept |
| Storage.UpdateStoreRestarts | delta/static/app/lib/storage.js:42-45 | a missing or expired group is replaced by exactly the stamp now and the new file |
| Storage.UpdateStoreValid | delta/static/app/lib/storage.js:39-47 | every object in the slot keeps distinct keys |
| Storage.Size | delta/static/app/lib/storage.js:49-51 | the number of keys of the directory's group, stamp included; none (the throw) when the directory is absent |
| Storage.Files | delta/static/app/lib/storage.js:56-61 | the entries collect visits are exactly the group's entries other than the stamp |
| Storage.Collect | delta/static/app/lib/storage.js:53-63 | one callback result per file of the group, in key order; nothing for an absent directory |
| Storage.AddFile | delta/static/app/lib/storage.js:66-69 | afterwards store[m.dir][m.merged] is m, and other directories are untouched |
| Storage.SizeCountsStamp | delta/static/app/lib/storage.js:49-63 | in a stamped group, size is one more than the number of results collect gives |
| Storage.WindowBoundary | delta/static/app/lib/storage.js:42-44 | exactly 1000 ms after the stamp the group and its other files are kept; 1001 ms after, only the new stamp and the new file remain |
| Storage.ReAddKeepsSize | delta/static/app/lib/storage.js:45-51 | re-adding a path in an open group overwrites its entry and does not change size |
| Storage.FilesInOneWindow | delta/static/app/lib/storage.js:39-69 | k files with distinct paths added to a new directory, each within a second of the first, give size k + 1 and k collect results |

## Left out

- Integer widths: the `int32` scores and the `-math.MaxInt32` starting value are unbounded integers. A candidate's score never comes near the starting value, so the comparisons are unaffected.
- Memoisation: the `ab` and `solution` tables and the order cells are filled are not modelled. Each cell's value is the recurrence's value, which `Align.ModeNeverMatters` shows is independent of the mode the cell is first reached with.
- `debug` (both differs) and `printSolution` (`delta/main.go`): these only print.
- `strings.TrimSpace`, `unicode.IsLetter`/`IsNumber` and HTML escaping are parameters with no assumed behaviour. Invalid UTF-8 and rune decoding are not modelled: text is a sequence of characters.
- `html/template` execution is markup around escaped text. The escaping of `div` contents and `HTMLEscapeString` are both the parameter `esc`.
- The SVG connector buffer `ll` in `HTML`: it is built but never returned.
- `delta/main.go`'s `HTML` inserts line text without escaping; the model shows the text as it is.
- `Raw()` returns the rows themselves; the earlier text formatter is modelled over the solution directly.
- OldestDiffer.Solve: requires both lists to be non-empty, as every `strings.Split` result is; the code indexes `solution[0][0]` otherwise.
- Storage: `localStorage` is a single in-memory slot, and the clock is the parameter `now`.
  - JSON parse errors are not modelled; they throw.
  - An array stored under the key (an object to JavaScript) is not modelled.
  - A group that is not an object is not modelled; the code would throw.
  - The key order of integer-like keys is not modelled: keys keep insertion order.
- Names of inherited `Object.prototype` properties are not modelled as keys. Examples are `constructor`, `toString` and `__proto__`. JavaScript's `in` finds these on every object, and assigning `__proto__` sets the prototype instead of adding a key. The model treats every name as an own key, so the contracts below hold only for other names:
  - Assoc.Get: for an inherited name `k in obj` is true, and reading it gives a function.
  - Assoc.Put: assigning `__proto__` adds no key.
  - Storage.GetStore: for a directory with such a name the code returns the inherited function, not undefined.
  - Storage.UpdateStore: for such a directory the code writes the file onto the inherited object, and `JSON.stringify` then drops it.
  - Storage.Size: for such a directory the code returns 0 instead of throwing.
  - Storage.AddFile: a file whose directory or path has such a name is not read back.
- `delta/metadata.go` is only the `Metadata` datatype.
- Not modelled: the command-line programs (`delta.go`, `delta/delta.go`, `delta/delta/delta.go`, `bin/delta.go`, `main.go`), `git.go`, `config.go`, `helpers.go`, `delta/folder.go` and `delta/static/app/app.js`. They are I/O, process, network and UI code.

## Findings

| source | as written | input that shows it | evidently intended | confidence | as-written member | corrected member |
|---|---|---|---|---|---|---|
| delta/solution.go:64-68 | a region starts only on a transition from an "=" row, so an addition directly after a deletion joins the deletion's region, and the swap loop moves it with a guard meant for deletions | rows "= a, < x, > y, = x, = ''": the left file a x x '' becomes a x '' x and the right file a y x '' becomes a x '' y | move only pure runs ("never both in a move", delta/solution.go:35), keeping both recorded files; lib/solution.go:73 starts a region at every type change | high (not executed) | OldSolutionExamples.OldScramblesMixedRegion | Solution.PostProcessKeepsColumns |
| delta/solution.go:64-68 | for the same reason a "~" row directly after a deletion joins the deletion's region, and the swap loop carries it forward with the deletion | rows "= a, < x, ~ y/z, = x, = y": the "~" row moves from index 2 to index 4 | only additions and deletions are moved (delta/solution.go:35); lib/solution.go:51-55 and 73 never move a "~" row | high (not executed) | OldSolutionExamples.OldMovesEdit | Solution.PostProcessKeepsEdits |
| lib/histogram.go:162-181 | each gap is diffed with NewSequenceDiffer(a, b).Solve(), whose whole-file case for an empty text (sequence.go:104-110) also fires when the gap of A is one blank line, and drops that line; its mirror (sequence.go:112-118) likewise drops a gap of B that is one blank line, facing lines of A, from the right column (A = x,z,y against B = x,"",y) | HistogramDiff("x\n\ny", "x\nz\ny"): the left column is x, y and the blank line of A is gone | every line of A appears in the left column and every line of B, up to trimming, in the right column, as in every other gap; the one-sided display of an empty text, which formatter/html.go:169-172 relies on, stays | high (not executed) | Histogram.BlankSolveDropsLine | Histogram.SolveExact |
