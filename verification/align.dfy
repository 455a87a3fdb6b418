/** The alignment recurrence of computeOptimal, shared by SequenceDiffer
    (sequence.go) and the older Differ (delta/differ.go): both score a cell with
    the same weights and differ only in how a tie between candidates is broken.
    This module defines the score, the move recorded in the solution table, the
    traceback getSolution performs, and proves the score optimal over every
    alignment. */
module Align {
  import opened Solution
  import opened Seqs

  /** defaultWeights. */
  const Deletion: int := -2
  const MatchWeight: int := 100
  const MismatchWeight: int := -1
  const NewMode: int := 0

  /** blockMode: the kind of step that led to a cell. */
  datatype Mode = Beginning | DeleteA | DeleteB | MatchMode | MismatchMode

  /** The three candidates at a cell: skip a line of A (a deletion, "<"), skip a
      line of B (an addition, ">"), or align the two lines ("=" or "~"). */
  datatype Move = SkipA | SkipB | Pair

  /** How computeOptimal compares a later candidate with the best so far:
      `>=` lets the later one win a tie, `>` keeps the earlier one. */
  datatype TieBreak = LaterWins | EarlierWins

  /** The line comparison a differ uses. */
  type LineEq = (string, string) -> bool

  function Max(x: int, y: int): int
  {
    if x < y then y else x
  }

  /** computeOptimal(i, j, _) with NewMode = 0: 0 once either index is past its
      end, otherwise the best of the three candidates. */
  function Score(a: seq<string>, b: seq<string>, eq: LineEq, i: nat, j: nat): int
    requires i <= |a| && j <= |b|
    decreases |a| - i + |b| - j, 1
  {
    if i >= |a| || j >= |b| then 0
    else Max(Max(Value(a, b, eq, i, j, SkipA), Value(a, b, eq, i, j, SkipB)), Value(a, b, eq, i, j, Pair))
  }

  /** The weight of one move at cell (i, j). */
  function Weight(a: seq<string>, b: seq<string>, eq: LineEq, i: nat, j: nat, mv: Move): int
    requires i < |a| && j < |b|
  {
    match mv
    case SkipA => Deletion
    case SkipB => Deletion
    case Pair => if eq(a[i], b[j]) then MatchWeight else MismatchWeight
  }

  function NextA(i: nat, mv: Move): nat
  {
    if mv == SkipB then i else i + 1
  }

  function NextB(j: nat, mv: Move): nat
  {
    if mv == SkipA then j else j + 1
  }

  /** The score of a candidate: its weight plus the score of the cell it leads to. */
  function Value(a: seq<string>, b: seq<string>, eq: LineEq, i: nat, j: nat, mv: Move): int
    requires i < |a| && j < |b|
    decreases |a| - i + |b| - j, 0
  {
    Weight(a, b, eq, i, j, mv) + Score(a, b, eq, NextA(i, mv), NextB(j, mv))
  }

  /** The mode a move leaves behind: DeleteA, DeleteB, or match/mismatch as
      the two lines compare. */
  function NextMode(a: seq<string>, b: seq<string>, eq: LineEq, i: nat, j: nat, mv: Move): Mode
    requires i < |a| && j < |b|
  {
    match mv
    case SkipA => DeleteA
    case SkipB => DeleteB
    case Pair => if eq(a[i], b[j]) then MatchMode else MismatchMode
  }

  /** computeOptimal as written, carrying the mode of the previous step. */
  function ScoreWithMode(a: seq<string>, b: seq<string>, eq: LineEq, i: nat, j: nat, m: Mode): int
    requires i <= |a| && j <= |b|
    decreases |a| - i + |b| - j, 1
  {
    if i >= |a| || j >= |b| then 0
    else Max(Max(ValueWithMode(a, b, eq, i, j, m, SkipA), ValueWithMode(a, b, eq, i, j, m, SkipB)), ValueWithMode(a, b, eq, i, j, m, Pair))
  }

  /** One candidate of computeOptimal: the move's weight, the score of the
      cell it leads to in the mode it leaves, and NewMode when that mode
      differs from m. */
  function ValueWithMode(a: seq<string>, b: seq<string>, eq: LineEq, i: nat, j: nat, m: Mode, mv: Move): int
    requires i < |a| && j < |b|
    decreases |a| - i + |b| - j, 0
  {
    var n := NextMode(a, b, eq, i, j, mv);
    Weight(a, b, eq, i, j, mv) + ScoreWithMode(a, b, eq, NextA(i, mv), NextB(j, mv), n) + (if m != n then NewMode else 0)
  }

  /** Because NewMode is 0 the mode never changes a score, which is why the
      memo table may be keyed on (i, j) alone. */
  lemma {:induction false} ModeNeverMatters(a: seq<string>, b: seq<string>, eq: LineEq, i: nat, j: nat, m: Mode)
    requires i <= |a| && j <= |b|
    ensures ScoreWithMode(a, b, eq, i, j, m) == Score(a, b, eq, i, j)
    decreases |a| - i + |b| - j
  {
    if i < |a| && j < |b| {
      ModeStep(a, b, eq, i, j, m, SkipA);
      ModeStep(a, b, eq, i, j, m, SkipB);
      ModeStep(a, b, eq, i, j, m, Pair);
    }
  }

  /** One candidate scores the same in every mode, given that the cell it
      leads to does. */
  lemma {:induction false} ModeStep(a: seq<string>, b: seq<string>, eq: LineEq, i: nat, j: nat, m: Mode, mv: Move)
    requires i < |a| && j < |b|
    ensures ValueWithMode(a, b, eq, i, j, m, mv) == Value(a, b, eq, i, j, mv)
    decreases |a| - i + |b| - j, 0
  {
    ModeNeverMatters(a, b, eq, NextA(i, mv), NextB(j, mv), NextMode(a, b, eq, i, j, mv));
  }

  /** Whether candidate x replaces the best-so-far y. */
  predicate Beats(tie: TieBreak, x: int, y: int)
  {
    if tie == LaterWins then x >= y else x > y
  }

  /** The move computeOptimal records at cell (i, j): candidates are tried in
      the order skip A, skip B, align, and a later one replaces the best so far
      when it Beats it. The recorded move always attains the cell's score; among
      the moves that attain it, `>=` prefers align, then skip B, then skip A,
      and `>` prefers skip A, then skip B, then align. */
  function Choice(a: seq<string>, b: seq<string>, eq: LineEq, tie: TieBreak, i: nat, j: nat): (r: Move)
    requires i < |a| && j < |b|
    ensures Value(a, b, eq, i, j, r) == Score(a, b, eq, i, j)
    ensures tie == LaterWins ==>
      && (r == Pair <==> Value(a, b, eq, i, j, Pair) == Score(a, b, eq, i, j))
      && (r == SkipB <==> Value(a, b, eq, i, j, Pair) < Value(a, b, eq, i, j, SkipB) == Score(a, b, eq, i, j))
    ensures tie == EarlierWins ==>
      && (r == SkipA <==> Value(a, b, eq, i, j, SkipA) == Score(a, b, eq, i, j))
      && (r == SkipB <==> Value(a, b, eq, i, j, SkipA) < Value(a, b, eq, i, j, SkipB) == Score(a, b, eq, i, j))
  {
    var va, vb, vp := Value(a, b, eq, i, j, SkipA), Value(a, b, eq, i, j, SkipB), Value(a, b, eq, i, j, Pair);
    var m2 := if Beats(tie, vb, va) then SkipB else SkipA;
    var best2 := if Beats(tie, vb, va) then vb else va;
    if Beats(tie, vp, best2) then Pair else m2
  }

  /** The solution-table entry for a computed cell: never Unknown, "=" exactly
      when the aligned lines compare equal and "~" exactly when they do not. */
  function Table(a: seq<string>, b: seq<string>, eq: LineEq, tie: TieBreak, i: nat, j: nat): (r: Source)
    requires i < |a| && j < |b|
    ensures r != Unknown
    ensures r == Both <==> Choice(a, b, eq, tie, i, j) == Pair && eq(a[i], b[j])
    ensures r == Edit <==> Choice(a, b, eq, tie, i, j) == Pair && !eq(a[i], b[j])
    ensures r == FromA <==> Choice(a, b, eq, tie, i, j) == SkipA
  {
    match Choice(a, b, eq, tie, i, j)
    case SkipA => FromA
    case SkipB => FromB
    case Pair => if eq(a[i], b[j]) then Both else Edit
  }

  // ---------------------------------------------------------------------------
  // Alignments and optimality

  /** An alignment from (i, j): moves until either side is exhausted (the
      remaining lines of the other side are then emitted at no cost). */
  predicate IsPath(a: seq<string>, b: seq<string>, i: nat, j: nat, p: seq<Move>)
    requires i <= |a| && j <= |b|
    decreases |p|
  {
    if i >= |a| || j >= |b| then p == []
    else |p| > 0 && IsPath(a, b, NextA(i, p[0]), NextB(j, p[0]), p[1..])
  }

  /** The total weight of an alignment. */
  function PathScore(a: seq<string>, b: seq<string>, eq: LineEq, i: nat, j: nat, p: seq<Move>): int
    requires i <= |a| && j <= |b| && IsPath(a, b, i, j, p)
    decreases |p|
  {
    if p == [] then 0
    else Weight(a, b, eq, i, j, p[0]) + PathScore(a, b, eq, NextA(i, p[0]), NextB(j, p[0]), p[1..])
  }

  /** No alignment scores more than computeOptimal. */
  lemma {:induction false} ScoreIsUpperBound(a: seq<string>, b: seq<string>, eq: LineEq, i: nat, j: nat, p: seq<Move>)
    requires i <= |a| && j <= |b| && IsPath(a, b, i, j, p)
    ensures PathScore(a, b, eq, i, j, p) <= Score(a, b, eq, i, j)
    decreases |p|
  {
    if p != [] {
      ScoreIsUpperBound(a, b, eq, NextA(i, p[0]), NextB(j, p[0]), p[1..]);
      assert PathScore(a, b, eq, i, j, p) <= Value(a, b, eq, i, j, p[0]);
    }
  }

  /** The alignment the traceback follows: the recorded move at every cell. */
  function Trace(a: seq<string>, b: seq<string>, eq: LineEq, tie: TieBreak, i: nat, j: nat): seq<Move>
    requires i <= |a| && j <= |b|
    decreases |a| - i + |b| - j
  {
    if i >= |a| || j >= |b| then []
    else
      var mv := Choice(a, b, eq, tie, i, j);
      [mv] + Trace(a, b, eq, tie, NextA(i, mv), NextB(j, mv))
  }

  /** The traceback is an alignment and it attains computeOptimal's score, so
      the recorded moves spell out an optimal alignment whatever the tie rule. */
  lemma {:induction false} TraceIsOptimal(a: seq<string>, b: seq<string>, eq: LineEq, tie: TieBreak, i: nat, j: nat)
    requires i <= |a| && j <= |b|
    ensures IsPath(a, b, i, j, Trace(a, b, eq, tie, i, j))
    ensures PathScore(a, b, eq, i, j, Trace(a, b, eq, tie, i, j)) == Score(a, b, eq, i, j)
    decreases |a| - i + |b| - j
  {
    if i < |a| && j < |b| {
      var mv := Choice(a, b, eq, tie, i, j);
      var p := Trace(a, b, eq, tie, i, j);
      TraceIsOptimal(a, b, eq, tie, NextA(i, mv), NextB(j, mv));
      assert p[0] == mv && p[1..] == Trace(a, b, eq, tie, NextA(i, mv), NextB(j, mv));
    }
  }

  /** A line as the table would tag it: never Unknown, "=" only for lines
      that compare equal and "~" only for lines that do not. */
  predicate WellTagged(eq: LineEq, x: Line)
  {
    && x.src != Unknown
    && (x.src == Both ==> eq(x.left, x.right))
    && (x.src == Edit ==> !eq(x.left, x.right))
  }

  /** One iteration of the getSolution loop at cell (i, j): the line appended
      and the cell that follows. Past the end of A only additions remain, past
      the end of B only deletions, otherwise the table entry decides. */
  function Step(a: seq<string>, b: seq<string>, eq: LineEq, tie: TieBreak, i: nat, j: nat): (r: (Line, nat, nat))
    requires i <= |a| && j <= |b| && (i < |a| || j < |b|)
    ensures r.1 <= |a| && r.2 <= |b| && WellTagged(eq, r.0)
    ensures if r.0.src == FromB then r.1 == i else i < |a| && r.1 == i + 1 && r.0.left == a[i]
    ensures if r.0.src == FromA then r.2 == j else j < |b| && r.2 == j + 1 && r.0.right == b[j]
  {
    if i == |a| then (Line("", b[j], FromB), i, j + 1)
    else if j == |b| then (Line(a[i], "", FromA), i + 1, j)
    else
      match Choice(a, b, eq, tie, i, j)
      case SkipA => (Line(a[i], "", FromA), i + 1, j)
      case SkipB => (Line("", b[j], FromB), i, j + 1)
      case Pair => (Line(a[i], b[j], Table(a, b, eq, tie, i, j)), i + 1, j + 1)
  }

  /** Prepending a line that consumes the next line of A unless it is an
      addition, and the next line of B unless it is a deletion, extends both
      columns by exactly the lines consumed. */
  lemma ConsColumns(a: seq<string>, b: seq<string>, i: nat, j: nat, x: Line, i2: nat, j2: nat, rest: DiffSolution)
    requires i <= |a| && j <= |b| && i2 <= |a| && j2 <= |b|
    requires if x.src == FromB then i2 == i else i < |a| && i2 == i + 1 && x.left == a[i]
    requires if x.src == FromA then j2 == j else j < |b| && j2 == j + 1 && x.right == b[j]
    requires Lefts(rest) == a[i2..] && Rights(rest) == b[j2..]
    ensures Lefts([x] + rest) == a[i..] && Rights([x] + rest) == b[j..]
  {
    ConsLefts(a, i, x, i2, rest);
    ConsRights(b, j, x, j2, rest);
  }

  /** The left column of ConsColumns. */
  lemma ConsLefts(a: seq<string>, i: nat, x: Line, i2: nat, rest: DiffSolution)
    requires i <= |a| && i2 <= |a|
    requires if x.src == FromB then i2 == i else i < |a| && i2 == i + 1 && x.left == a[i]
    requires Lefts(rest) == a[i2..]
    ensures Lefts([x] + rest) == a[i..]
  {
    var d := [x] + rest;
    assert d[0] == x && d[1..] == rest;
    if x.src != FromB {
      assert a[i..] == [a[i]] + a[i + 1..];
    }
  }

  /** The right column of ConsColumns. */
  lemma ConsRights(b: seq<string>, j: nat, x: Line, j2: nat, rest: DiffSolution)
    requires j <= |b| && j2 <= |b|
    requires if x.src == FromA then j2 == j else j < |b| && j2 == j + 1 && x.right == b[j]
    requires Rights(rest) == b[j2..]
    ensures Rights([x] + rest) == b[j..]
  {
    var d := [x] + rest;
    assert d[0] == x && d[1..] == rest;
    if x.src != FromA {
      assert b[j..] == [b[j]] + b[j + 1..];
    }
  }

  /** The lines getSolution emits from cell (i, j) onward. Both columns come
      out as the unconsumed parts of A and B, and every line is tagged as the
      table tags it. */
  function Emit(a: seq<string>, b: seq<string>, eq: LineEq, tie: TieBreak, i: nat, j: nat): (r: DiffSolution)
    requires i <= |a| && j <= |b|
    ensures Lefts(r) == a[i..] && Rights(r) == b[j..]
    ensures forall k :: 0 <= k < |r| ==> WellTagged(eq, r[k])
    decreases |a| - i + |b| - j
  {
    if i == |a| && j == |b| then []
    else
      var st := Step(a, b, eq, tie, i, j);
      var rest := Emit(a, b, eq, tie, st.1, st.2);
      ConsColumns(a, b, i, j, st.0, st.1, st.2, rest);
      [st.0] + rest
  }

  /** The move a solution line stands for. */
  function MoveOf(x: Line): Move
  {
    match x.src
    case FromA => SkipA
    case FromB => SkipB
    case _ => Pair
  }

  /** The lines getSolution emits start with the moves of the optimal
      traceback, one line per move, so the diff realises an optimal alignment. */
  lemma {:induction false} EmitFollowsTrace(a: seq<string>, b: seq<string>, eq: LineEq, tie: TieBreak, i: nat, j: nat)
    requires i <= |a| && j <= |b|
    ensures |Trace(a, b, eq, tie, i, j)| <= |Emit(a, b, eq, tie, i, j)|
    ensures forall k :: 0 <= k < |Trace(a, b, eq, tie, i, j)| ==>
      MoveOf(Emit(a, b, eq, tie, i, j)[k]) == Trace(a, b, eq, tie, i, j)[k]
    decreases |a| - i + |b| - j
  {
    if i < |a| && j < |b| {
      var mv := Choice(a, b, eq, tie, i, j);
      var st := Step(a, b, eq, tie, i, j);
      assert MoveOf(st.0) == mv;
      assert st.1 == NextA(i, mv) && st.2 == NextB(j, mv);
      EmitFollowsTrace(a, b, eq, tie, st.1, st.2);
      var e := Emit(a, b, eq, tie, i, j);
      var t := Trace(a, b, eq, tie, i, j);
      assert e == [st.0] + Emit(a, b, eq, tie, st.1, st.2);
      assert t == [mv] + Trace(a, b, eq, tie, st.1, st.2);
    }
  }

  // ---------------------------------------------------------------------------
  // Solve

  /** The shared-prefix loop's exit index: the end of the longest run of lines from i on that compare equal pairwise. */
  function PrefixLength(a: seq<string>, b: seq<string>, eq: LineEq, i: nat): (n: nat)
    requires i <= |a| && i <= |b|
    ensures i <= n <= |a| && n <= |b|
    ensures forall k :: i <= k < n ==> eq(a[k], b[k])
    ensures n < |a| && n < |b| ==> !eq(a[n], b[n])
    decreases |a| - i
  {
    if i < |a| && i < |b| && eq(a[i], b[i]) then PrefixLength(a, b, eq, i + 1) else i
  }

  /** Rows at, at + 1, … of r are the "=" rows (a[k], b[k]) for k in [i, n). */
  predicate CopiedRows(r: DiffSolution, at: nat, a: seq<string>, b: seq<string>, i: nat, n: nat)
  {
    && i <= n <= |a| && n <= |b| && at + n - i <= |r|
    && forall k :: i <= k < n ==> r[at + k - i] == Line(a[k], b[k], Both)
  }

  /** The shared-prefix loop of Solve: lines i until n copied as "=" lines. */
  function AddPrefix(s: DiffSolution, a: seq<string>, b: seq<string>, i: nat, n: nat): (r: DiffSolution)
    requires i <= n <= |a| && n <= |b|
    ensures |r| == |s| + n - i && r[..|s|] == s
    ensures CopiedRows(r, |s|, a, b, i, n)
    ensures Lefts(r) == Lefts(s) + a[i..n] && Rights(r) == Rights(s) + b[i..n]
    decreases n - i
  {
    if i == n then s
    else
      var s1 := AddLine(s, a[i], b[i], Both);
      var r := AddPrefix(s1, a, b, i + 1, n);
      PrefixRowsStep(s, s1, r, a, b, i, n);
      PrefixColumnsStep(s, s1, r, a, b, i, n);
      r
  }

  /** The rows of AddPrefix after one "=" row is appended to s, given the
      rows the rest of the loop adds after it. */
  lemma PrefixRowsStep(s: DiffSolution, s1: DiffSolution, r: DiffSolution, a: seq<string>, b: seq<string>, i: nat, n: nat)
    requires i < n <= |a| && n <= |b|
    requires |s1| == |s| + 1 && s1[..|s|] == s && s1[|s|] == Line(a[i], b[i], Both)
    requires |r| == |s1| + n - (i + 1) && r[..|s1|] == s1
    requires CopiedRows(r, |s1|, a, b, i + 1, n)
    ensures r[..|s|] == s
    ensures CopiedRows(r, |s|, a, b, i, n)
  {
    assert r[..|s|] == r[..|s1|][..|s|];
    assert r[|s|] == s1[|s|];
    forall k | i < k < n
      ensures r[|s| + k - i] == Line(a[k], b[k], Both)
    {
      assert |s| + k - i == |s1| + k - (i + 1);
    }
  }

  /** The columns of AddPrefix after one "=" row is appended to s. */
  lemma PrefixColumnsStep(s: DiffSolution, s1: DiffSolution, r: DiffSolution, a: seq<string>, b: seq<string>, i: nat, n: nat)
    requires i < n <= |a| && n <= |b|
    requires Lefts(s1) == Lefts(s) + [a[i]] && Rights(s1) == Rights(s) + [b[i]]
    requires Lefts(r) == Lefts(s1) + a[i + 1..n] && Rights(r) == Rights(s1) + b[i + 1..n]
    ensures Lefts(r) == Lefts(s) + a[i..n] && Rights(r) == Rights(s) + b[i..n]
  {
    SnocSlice(Lefts(s), a, i, n);
    SnocSlice(Rights(s), b, i, n);
  }

  /** Gluing the "=" prefix lines to the lines emitted after them. */
  lemma PrefixThenRest(a: seq<string>, b: seq<string>, eq: LineEq, n: nat, s: DiffSolution, e: DiffSolution)
    requires n <= |a| && n <= |b| && |s| == n
    requires forall k :: 0 <= k < n ==> eq(a[k], b[k]) && s[k] == Line(a[k], b[k], Both)
    requires Lefts(s) == a[..n] && Rights(s) == b[..n]
    requires Lefts(e) == a[n..] && Rights(e) == b[n..]
    requires forall k :: 0 <= k < |e| ==> WellTagged(eq, e[k])
    ensures Lefts(s + e) == a && Rights(s + e) == b
    ensures forall k :: 0 <= k < |s + e| ==> WellTagged(eq, (s + e)[k])
    ensures forall k :: 0 <= k < n ==> (s + e)[k] == Line(a[k], b[k], Both)
  {
    GlueColumns(a, b, n, s, e);
    GlueTags(a, b, eq, n, s, e);
  }

  lemma GlueColumns(a: seq<string>, b: seq<string>, n: nat, s: DiffSolution, e: DiffSolution)
    requires n <= |a| && n <= |b|
    requires Lefts(s) == a[..n] && Rights(s) == b[..n]
    requires Lefts(e) == a[n..] && Rights(e) == b[n..]
    ensures Lefts(s + e) == a && Rights(s + e) == b
  {
    ColumnsAppend(s, e);
    TakeDrop(a, n);
    TakeDrop(b, n);
  }

  lemma GlueTags(a: seq<string>, b: seq<string>, eq: LineEq, n: nat, s: DiffSolution, e: DiffSolution)
    requires n <= |a| && n <= |b| && |s| == n
    requires forall k :: 0 <= k < n ==> eq(a[k], b[k]) && s[k] == Line(a[k], b[k], Both)
    requires forall k :: 0 <= k < |e| ==> WellTagged(eq, e[k])
    ensures forall k :: 0 <= k < |s + e| ==> WellTagged(eq, (s + e)[k])
    ensures forall k :: 0 <= k < n ==> (s + e)[k] == Line(a[k], b[k], Both)
  {
    var r := s + e;
    forall k | 0 <= k < |r|
      ensures WellTagged(eq, r[k])
    {
      if k < n {
        assert r[k] == s[k];
      } else {
        assert r[k] == e[k - n];
      }
    }
  }

  /** The common shape of both differs' Solve: copy the longest shared
      prefix as "=" lines, then append the traceback from the cell where the
      prefix ends. The columns are exactly A and B. */
  function PrefixThenTrace(a: seq<string>, b: seq<string>, eq: LineEq, tie: TieBreak): (r: DiffSolution)
    ensures Lefts(r) == a && Rights(r) == b
    ensures forall k :: 0 <= k < |r| ==> WellTagged(eq, r[k])
    ensures var n := PrefixLength(a, b, eq, 0);
      n <= |r| && forall k :: 0 <= k < n ==> r[k] == Line(a[k], b[k], Both)
  {
    var n := PrefixLength(a, b, eq, 0);
    var s := AddPrefix([], a, b, 0, n);
    var e := Emit(a, b, eq, tie, n, n);
    assert a[0..n] == a[..n] && b[0..n] == b[..n];
    PrefixThenRest(a, b, eq, n, s, e);
    s + e
  }
}
