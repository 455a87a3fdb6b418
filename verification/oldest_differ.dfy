/** delta/main.go: the first Differ. The last element of each line list is a
    sentinel: the recurrence is anchored at (len(a)-1, len(b)-1), which is
    never emitted, so only the lines before it appear in the solution. Lines
    compare exactly; a deletion or addition scores -1, a match +1 and a
    mismatch -1, and a candidate wins only when strictly better. A solution
    line is a pair of optional strings. */
module OldestDiffer {
  import opened Wrappers
  import opened Text
  import opened Align
  import opened Seqs

  const DeletionScore: int := -1
  const MatchScore: int := 1
  const MismatchScore: int := -1

  /** A line of the solution: its left side, its right side, or both. */
  datatype OldLine = OldLine(left: Option<string>, right: Option<string>)

  type OldSolution = seq<OldLine>

  /** No line has two missing sides. */
  predicate WellFormed(l: OldLine)
  {
    l.left.Some? || l.right.Some?
  }

  predicate AllWellFormed(d: OldSolution)
  {
    forall k :: 0 <= k < |d| ==> WellFormed(d[k])
  }

  function OLefts(d: OldSolution): seq<string>
  {
    if d == [] then []
    else (if d[0].left.Some? then [d[0].left.value] else []) + OLefts(d[1..])
  }

  function ORights(d: OldSolution): seq<string>
  {
    if d == [] then []
    else (if d[0].right.Some? then [d[0].right.value] else []) + ORights(d[1..])
  }

  lemma OColumnsAppend(d: OldSolution, e: OldSolution)
    ensures OLefts(d + e) == OLefts(d) + OLefts(e)
    ensures ORights(d + e) == ORights(d) + ORights(e)
  {
    OLeftsAppend(d, e);
    ORightsAppend(d, e);
  }

  lemma {:induction false} OLeftsAppend(d: OldSolution, e: OldSolution)
    ensures OLefts(d + e) == OLefts(d) + OLefts(e)
  {
    if d == [] {
      AppendEmpty(e);
    } else {
      var x := d + e;
      AppendFront(d, e);
      OLeftsAppend(d[1..], e);
      var h := if d[0].left.Some? then [d[0].left.value] else [];
      assert OLefts(x) == h + OLefts(x[1..]);
      assert OLefts(d) == h + OLefts(d[1..]);
      AppendAssoc(h, OLefts(d[1..]), OLefts(e));
    }
  }

  lemma {:induction false} ORightsAppend(d: OldSolution, e: OldSolution)
    ensures ORights(d + e) == ORights(d) + ORights(e)
  {
    if d == [] {
      AppendEmpty(e);
    } else {
      var x := d + e;
      AppendFront(d, e);
      ORightsAppend(d[1..], e);
      var h := if d[0].right.Some? then [d[0].right.value] else [];
      assert ORights(x) == h + ORights(x[1..]);
      assert ORights(d) == h + ORights(d[1..]);
      AppendAssoc(h, ORights(d[1..]), ORights(e));
    }
  }

  lemma OColumnsOne(x: OldLine)
    ensures OLefts([x]) == if x.left.Some? then [x.left.value] else []
    ensures ORights([x]) == if x.right.Some? then [x.right.value] else []
  {
    assert [x][1..] == [];
  }

  /** addLineA: a line with only a left side. */
  function AddLineA(d: OldSolution, a: string): (r: OldSolution)
    ensures |r| == |d| + 1 && r[..|d|] == d && WellFormed(r[|d|])
    ensures OLefts(r) == OLefts(d) + [a] && ORights(r) == ORights(d)
  {
    OColumnsAppend(d, [OldLine(Some(a), None)]);
    OColumnsOne(OldLine(Some(a), None));
    d + [OldLine(Some(a), None)]
  }

  /** addLineB: a line with only a right side. */
  function AddLineB(d: OldSolution, b: string): (r: OldSolution)
    ensures |r| == |d| + 1 && r[..|d|] == d && WellFormed(r[|d|])
    ensures OLefts(r) == OLefts(d) && ORights(r) == ORights(d) + [b]
  {
    OColumnsAppend(d, [OldLine(None, Some(b))]);
    OColumnsOne(OldLine(None, Some(b)));
    d + [OldLine(None, Some(b))]
  }

  /** addLine: a line with both sides. */
  function AddLine(d: OldSolution, a: string, b: string): (r: OldSolution)
    ensures |r| == |d| + 1 && r[..|d|] == d && WellFormed(r[|d|])
    ensures OLefts(r) == OLefts(d) + [a] && ORights(r) == ORights(d) + [b]
  {
    OColumnsAppend(d, [OldLine(Some(a), Some(b))]);
    OColumnsOne(OldLine(Some(a), Some(b)));
    d + [OldLine(Some(a), Some(b))]
  }

  // ---------------------------------------------------------------------------
  // The recurrence

  /** A cell of the table: both lists are non-empty (strings.Split never
      returns an empty list) and the indices stay on or before the sentinel. */
  predicate Cell(a: seq<string>, b: seq<string>, i: nat, j: nat)
  {
    1 <= |a| && 1 <= |b| && i < |a| && j < |b|
  }

  predicate AtEnd(a: seq<string>, b: seq<string>, i: nat, j: nat)
  {
    i == |a| - 1 && j == |b| - 1
  }

  /** A move is tried only when it stays on or before the sentinel. */
  predicate Allowed(a: seq<string>, b: seq<string>, i: nat, j: nat, mv: Move)
  {
    match mv
    case SkipA => i < |a| - 1
    case SkipB => j < |b| - 1
    case Pair => i < |a| - 1 && j < |b| - 1
  }

  function Weight(a: seq<string>, b: seq<string>, i: nat, j: nat, mv: Move): int
    requires i < |a| && j < |b|
  {
    match mv
    case SkipA => DeletionScore
    case SkipB => DeletionScore
    case Pair => if a[i] == b[j] then MatchScore else MismatchScore
  }

  /** computeOptimal: 0 at the sentinel cell, otherwise the best allowed move. */
  function Score(a: seq<string>, b: seq<string>, i: nat, j: nat): int
    requires Cell(a, b, i, j)
    decreases |a| - i + |b| - j, 1
  {
    if AtEnd(a, b, i, j) then 0
    else if i == |a| - 1 then Value(a, b, i, j, SkipB)
    else if j == |b| - 1 then Value(a, b, i, j, SkipA)
    else Max(Max(Value(a, b, i, j, SkipA), Value(a, b, i, j, SkipB)), Value(a, b, i, j, Pair))
  }

  function Value(a: seq<string>, b: seq<string>, i: nat, j: nat, mv: Move): int
    requires Cell(a, b, i, j) && Allowed(a, b, i, j, mv)
    decreases |a| - i + |b| - j, 0
  {
    Weight(a, b, i, j, mv) + Score(a, b, NextA(i, mv), NextB(j, mv))
  }

  /** The move recorded at a cell other than the sentinel: always an allowed
      one that attains the score, and, because a candidate must be strictly
      better to replace the best so far, skip A whenever skipping A attains
      it, then skip B. The table is therefore set at every cell getSolution
      visits, and its loop always advances. */
  function Choice(a: seq<string>, b: seq<string>, i: nat, j: nat): (r: Move)
    requires Cell(a, b, i, j) && !AtEnd(a, b, i, j)
    ensures Allowed(a, b, i, j, r) && Value(a, b, i, j, r) == Score(a, b, i, j)
    ensures r == SkipA <==> Allowed(a, b, i, j, SkipA) && Value(a, b, i, j, SkipA) == Score(a, b, i, j)
    ensures r == SkipB <==>
      && Allowed(a, b, i, j, SkipB) && Value(a, b, i, j, SkipB) == Score(a, b, i, j)
      && !(Allowed(a, b, i, j, SkipA) && Value(a, b, i, j, SkipA) == Score(a, b, i, j))
  {
    if i == |a| - 1 then SkipB
    else if j == |b| - 1 then SkipA
    else
      var va, vb, vp := Value(a, b, i, j, SkipA), Value(a, b, i, j, SkipB), Value(a, b, i, j, Pair);
      var m2 := if vb > va then SkipB else SkipA;
      var best := if vb > va then vb else va;
      if vp > best then Pair else m2
  }

  /** The score of a solution: -1 for a one-sided line, +1 for a pair of
      equal lines and -1 for a pair of different ones. */
  function LineScore(l: OldLine): int
  {
    if l.left.Some? && l.right.Some? then
      (if l.left.value == l.right.value then MatchScore else MismatchScore)
    else DeletionScore
  }

  function SolutionScore(d: OldSolution): int
  {
    if d == [] then 0 else LineScore(d[0]) + SolutionScore(d[1..])
  }

  /** One iteration of getSolution's loop at a cell other than the sentinel:
      the line appended and the cell that follows. */
  function Step(a: seq<string>, b: seq<string>, i: nat, j: nat): (r: (OldLine, nat, nat))
    requires Cell(a, b, i, j) && !AtEnd(a, b, i, j)
    ensures Cell(a, b, r.1, r.2) && WellFormed(r.0)
    ensures if r.0.left.Some? then i < |a| - 1 && r.1 == i + 1 && r.0.left.value == a[i] else r.1 == i
    ensures if r.0.right.Some? then j < |b| - 1 && r.2 == j + 1 && r.0.right.value == b[j] else r.2 == j
    ensures LineScore(r.0) + Score(a, b, r.1, r.2) == Score(a, b, i, j)
  {
    if i == |a| - 1 then (OldLine(None, Some(b[j])), i, j + 1)
    else if j == |b| - 1 then (OldLine(Some(a[i]), None), i + 1, j)
    else
      match Choice(a, b, i, j)
      case SkipA => (OldLine(Some(a[i]), None), i + 1, j)
      case SkipB => (OldLine(None, Some(b[j])), i, j + 1)
      case Pair => (OldLine(Some(a[i]), Some(b[j])), i + 1, j + 1)
  }

  /** Prepending a line that consumes exactly its sides extends both columns
      by them and adds its score. */
  lemma ConsLine(a: seq<string>, b: seq<string>, i: nat, j: nat, x: OldLine, i2: nat, j2: nat, rest: OldSolution)
    requires i <= |a| - 1 && j <= |b| - 1 && i2 <= |a| - 1 && j2 <= |b| - 1
    requires if x.left.Some? then i2 == i + 1 && x.left.value == a[i] else i2 == i
    requires if x.right.Some? then j2 == j + 1 && x.right.value == b[j] else j2 == j
    requires OLefts(rest) == a[i2..|a| - 1] && ORights(rest) == b[j2..|b| - 1]
    ensures OLefts([x] + rest) == a[i..|a| - 1] && ORights([x] + rest) == b[j..|b| - 1]
    ensures SolutionScore([x] + rest) == LineScore(x) + SolutionScore(rest)
  {
    OColumnsAppend([x], rest);
    OColumnsOne(x);
    SideFront(a, i, i2, x.left);
    SideFront(b, j, j2, x.right);
    ScoreCons(x, rest);
  }

  /** One side of a line followed by the rest of a column. */
  lemma SideFront(s: seq<string>, i: nat, i2: nat, side: Option<string>)
    requires i <= |s| - 1 && i2 <= |s| - 1
    requires if side.Some? then i2 == i + 1 && side.value == s[i] else i2 == i
    ensures (if side.Some? then [side.value] else []) + s[i2..|s| - 1] == s[i..|s| - 1]
  {
    if side.Some? {
      HeadTail(s[i..|s| - 1]);
      assert s[i..|s| - 1][1..] == s[i + 1..|s| - 1];
    }
  }

  lemma ScoreCons(x: OldLine, rest: OldSolution)
    ensures SolutionScore([x] + rest) == LineScore(x) + SolutionScore(rest)
  {
    assert ([x] + rest)[1..] == rest;
  }

  /** getSolution from cell (i, j): the lines up to, not including, the
      sentinels. Both columns are the lines of A and B from i and j up to
      the last one, every line has a side, and the solution scores exactly
      what computeOptimal computed. */
  function Emit(a: seq<string>, b: seq<string>, i: nat, j: nat): (r: OldSolution)
    requires Cell(a, b, i, j)
    ensures OLefts(r) == a[i..|a| - 1] && ORights(r) == b[j..|b| - 1]
    ensures AllWellFormed(r)
    ensures SolutionScore(r) == Score(a, b, i, j)
    decreases |a| - i + |b| - j
  {
    if AtEnd(a, b, i, j) then []
    else
      var st := Step(a, b, i, j);
      var rest := Emit(a, b, st.1, st.2);
      ConsLine(a, b, i, j, st.0, st.1, st.2, rest);
      [st.0] + rest
  }

  /** computeOptimal's score is the best any solution can reach: every
      solution whose columns are the lines of A and B from (i, j) up to the
      sentinels scores at most Score(a, b, i, j). */
  lemma {:induction false} ScoreIsBest(a: seq<string>, b: seq<string>, i: nat, j: nat, d: OldSolution)
    requires Cell(a, b, i, j) && AllWellFormed(d)
    requires OLefts(d) == a[i..|a| - 1] && ORights(d) == b[j..|b| - 1]
    ensures SolutionScore(d) <= Score(a, b, i, j)
    decreases |d|
  {
    if d == [] {
      assert |a[i..|a| - 1]| == 0 && |b[j..|b| - 1]| == 0;
    } else {
      var x, rest := d[0], d[1..];
      assert d == [x] + rest;
      OColumnsAppend([x], rest);
      OColumnsOne(x);
      assert AllWellFormed(rest) by {
        forall k | 0 <= k < |rest| ensures WellFormed(rest[k]) {
          assert rest[k] == d[k + 1];
        }
      }
      assert WellFormed(x);
      var mv := if x.left.Some? && x.right.Some? then Pair else if x.left.Some? then SkipA else SkipB;
      if mv != SkipB {
        assert |a[i..|a| - 1]| > 0;
        assert a[i..|a| - 1][0] == a[i] && a[i..|a| - 1][1..] == a[i + 1..|a| - 1];
      }
      if mv != SkipA {
        assert |b[j..|b| - 1]| > 0;
        assert b[j..|b| - 1][0] == b[j] && b[j..|b| - 1][1..] == b[j + 1..|b| - 1];
      }
      assert Allowed(a, b, i, j, mv) && !AtEnd(a, b, i, j);
      ScoreIsBest(a, b, NextA(i, mv), NextB(j, mv), rest);
      assert LineScore(x) == Weight(a, b, i, j, mv);
      assert SolutionScore(d) <= Value(a, b, i, j, mv);
    }
  }

  /** Differ.Solve: the traceback from (0, 0). It leaves out the last line of
      each list and reaches the best score of any such solution. */
  function Solve(a: seq<string>, b: seq<string>): (r: OldSolution)
    requires 1 <= |a| && 1 <= |b|
    ensures OLefts(r) == a[..|a| - 1] && ORights(r) == b[..|b| - 1]
    ensures AllWellFormed(r)
    ensures forall d: OldSolution :: AllWellFormed(d) && OLefts(d) == OLefts(r) && ORights(d) == ORights(r) ==>
              SolutionScore(d) <= SolutionScore(r)
  {
    var r := Emit(a, b, 0, 0);
    assert a[0..|a| - 1] == a[..|a| - 1] && b[0..|b| - 1] == b[..|b| - 1];
    forall d: OldSolution | AllWellFormed(d) && OLefts(d) == OLefts(r) && ORights(d) == ORights(r)
      ensures SolutionScore(d) <= SolutionScore(r)
    {
      ScoreIsBest(a, b, 0, 0, d);
    }
    r
  }

  function Last(ls: seq<string>): string
    requires |ls| >= 1
  {
    ls[|ls| - 1]
  }

  /** Diff: split both texts on newlines and solve. The left column followed
      by the text after the last newline of A joins back to A, and likewise
      on the right: only a text that ends in a newline is covered in full. */
  function Diff(a: string, b: string): (r: OldSolution)
    ensures AllWellFormed(r)
    ensures JoinLines(OLefts(r) + [Last(SplitLines(a))]) == a
    ensures JoinLines(ORights(r) + [Last(SplitLines(b))]) == b
  {
    var aw, bw := SplitLines(a), SplitLines(b);
    var r := Solve(aw, bw);
    ColumnJoins(a, OLefts(r));
    ColumnJoins(b, ORights(r));
    r
  }

  /** All lines of a text but the last, then the last, join back to it. */
  lemma ColumnJoins(text: string, col: seq<string>)
    requires col == SplitLines(text)[..|SplitLines(text)| - 1]
    ensures JoinLines(col + [Last(SplitLines(text))]) == text
  {
    var w := SplitLines(text);
    JoinSplitLines(text);
    TakeSnoc(w, |w| - 1);
    TakeAll(w);
  }

  /** The last line of a text without a final newline is not in the diff:
      "x\ny" against itself shows only the line "x". */
  lemma DiffDropsLastLine()
    ensures OLefts(Diff("x\ny", "x\ny")) == ["x"]
    ensures ORights(Diff("x\ny", "x\ny")) == ["x"]
  {
    SplitLinesPrefix("x", "y");
    SplitLinesSingle("y");
    assert "x" + "\n" + "y" == "x\ny";
    assert SplitLines("x\ny") == ["x", "y"];
  }

  // ---------------------------------------------------------------------------
  // DiffSolution.HTML

  /** The four strings HTML builds and its two line counters. */
  datatype Panes = Panes(li: nat, ri: nat, lg: string, rg: string, left: string, right: string)

  function NumberDiv(n: int): string
  {
    "<div class='line line-number'>" + Decimal(n) + "</div>"
  }

  /** The CSS class of a line with both sides. */
  function PairClass(l: OldLine): string
    requires l.left.Some? && l.right.Some?
  {
    if l.left.value == l.right.value then "line-match" else "line-mismatch"
  }

  /** The div of one side of a line with both sides, in pane class side. */
  function PairDiv(side: string, cls: string, v: string): string
  {
    "<div class='line " + side + " " + cls + "'>" + v + "</div>"
  }

  /** One iteration of HTML's loop. A line with neither side would be
      dereferenced, so the loop asks for well-formed lines. */
  function RenderLine(p: Panes, l: OldLine): (r: Panes)
    requires WellFormed(l)
    ensures r.li == p.li + (if l.left.Some? then 1 else 0)
    ensures r.ri == p.ri + (if l.right.Some? then 1 else 0)
  {
    if l.left.Some? && l.right.None? then
      Panes(p.li + 1, p.ri,
        p.lg + NumberDiv(p.li + 1), p.rg + "<div class='line'></div>",
        p.left + "<div class='line line-a line-addition'>" + l.left.value + "</div>",
        p.right + "<div class='line line-b'></div>")
    else if l.left.None? && l.right.Some? then
      Panes(p.li, p.ri + 1,
        p.lg + "<div class='line'></div>", p.rg + NumberDiv(p.ri + 1),
        p.left + "<div class='line line-a'></div>",
        p.right + "<div class='line line-b line-addition'>" + l.right.value + "</div>")
    else
      Panes(p.li + 1, p.ri + 1,
        p.lg + NumberDiv(p.li + 1), p.rg + NumberDiv(p.ri + 1),
        p.left + PairDiv("line-a", PairClass(l), l.left.value),
        p.right + PairDiv("line-b", PairClass(l), l.right.value))
  }

  /** The loop over all lines: the counters end at the number of left sides
      and the number of right sides, which number the gutters. */
  function RenderLines(p: Panes, d: OldSolution): (r: Panes)
    requires AllWellFormed(d)
    ensures r.li == p.li + |OLefts(d)| && r.ri == p.ri + |ORights(d)|
    decreases |d|
  {
    if d == [] then p
    else
      assert AllWellFormed(d[1..]) by {
        forall k | 0 <= k < |d[1..]| ensures WellFormed(d[1..][k]) {
          assert d[1..][k] == d[k + 1];
        }
      }
      RenderLines(RenderLine(p, d[0]), d[1..])
  }

  function HTML(d: OldSolution): string
    requires AllWellFormed(d)
  {
    var p := RenderLines(Panes(0, 0, "<div class='gutter'>", "<div class='gutter'>",
      "<div id='diff-left' class='diff-pane'>", "<div id='diff-right' class='diff-pane'>"), d);
    p.lg + "</div>" + p.left + "</div>" + p.rg + "</div>" + p.right + "</div>"
  }

  /** Rendering a solution of Solve never meets a line without sides, and the
      gutters count the lines of A and of B before the sentinels. */
  lemma SolveRenders(a: seq<string>, b: seq<string>)
    requires 1 <= |a| && 1 <= |b|
    ensures AllWellFormed(Solve(a, b))
    ensures var p := RenderLines(Panes(0, 0, "", "", "", ""), Solve(a, b));
      p.li == |a| - 1 && p.ri == |b| - 1
  {
  }

  /** A line with both sides is rendered in each pane with the class
      line-match exactly when its two sides are equal. */
  lemma PairClasses(p: Panes, l: OldLine)
    requires l.left.Some? && l.right.Some?
    ensures var r := RenderLine(p, l);
      && (r.left == p.left + PairDiv("line-a", "line-match", l.left.value) <==> l.left.value == l.right.value)
      && (r.right == p.right + PairDiv("line-b", "line-match", l.right.value) <==> l.left.value == l.right.value)
  {
    if l.left.value != l.right.value {
      MatchDiffers(p.left, "line-a", l.left.value);
      MatchDiffers(p.right, "line-b", l.right.value);
    }
  }

  /** The same div with line-match and with line-mismatch differ: their
      characters after the pane, the side and "line-m" are 'a' and 'i'. */
  lemma MatchDiffers(pane: string, side: string, v: string)
    requires |side| == 6
    ensures pane + PairDiv(side, "line-match", v) != pane + PairDiv(side, "line-mismatch", v)
  {
    var i := |pane| + 30;
    assert (pane + PairDiv(side, "line-match", v))[i] == 'a';
    assert (pane + PairDiv(side, "line-mismatch", v))[i] == 'i';
  }
}
