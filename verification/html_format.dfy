/** formatter/html.go: the HTML rendering for the GUI. Each line gets a CSS
    class from its distance to the nearest change, both sides are numbered,
    edited lines are diffed word by word, tabs are made visible, and a side
    with no lines is left out. html/template's escaping of text is the
    parameter esc; unicode.IsLetter || unicode.IsNumber is isWord. */
module HtmlFormat {
  import opened Wrappers
  import opened Text
  import opened Solution
  import Align
  import Sequence
  import Histogram
  import TextFormat

  // ---------------------------------------------------------------------------
  // Distance to the next change

  /** maxContext: ten lines of context, plus one for the lines to hide. */
  const Context: int := 10
  const MaxContext: int := Context + 1

  function Min(x: int, y: int): int
  {
    if x < y then x else y
  }

  /** The lines the backward pass treats as changes: additions, deletions,
      edits, and "=" lines whose columns differ. */
  predicate Changed(l: Line)
  {
    l.src == FromA || l.src == FromB || l.src == Edit || (l.src == Both && l.left != l.right)
  }

  /** The first changed line at or after i, if any. */
  function NextChanged(d: DiffSolution, i: nat): (r: Option<nat>)
    requires i <= |d|
    ensures r.Some? ==> i <= r.value < |d| && Changed(d[r.value])
    ensures r.Some? ==> forall m :: i <= m < r.value ==> !Changed(d[m])
    ensures r.None? ==> forall m :: i <= m < |d| ==> !Changed(d[m])
    decreases |d| - i
  {
    if i == |d| then None else if Changed(d[i]) then Some(i) else NextChanged(d, i + 1)
  }

  /** nextChange[i]: the distance to the next changed line, capped at
      MaxContext; MaxContext when no changed line follows. It is 0 exactly
      on the changed lines. */
  function NextChange(d: DiffSolution, i: nat): (r: int)
    requires i < |d|
    ensures 0 <= r <= MaxContext
    ensures r == 0 <==> Changed(d[i])
  {
    match NextChanged(d, i)
    case None => MaxContext
    case Some(k) => Min(k - i, MaxContext)
  }

  /** The backward loop that fills nextChange, carrying the index of the
      last changed line seen (len + 10 before any is seen). */
  method NextChanges(d: DiffSolution) returns (next: seq<int>)
    ensures |next| == |d|
    ensures forall i :: 0 <= i < |d| ==> next[i] == NextChange(d, i)
  {
    next := seq(|d|, _ => 0);
    var last := |d| + 10;
    var i := |d| - 1;
    while i > -1
      invariant -1 <= i < |d| && |next| == |d|
      invariant last == match NextChanged(d, i + 1) case None => |d| + 10 case Some(k) => k
      invariant forall k :: i < k < |d| ==> next[k] == NextChange(d, k)
      decreases i
    {
      var l := d[i];
      if l.src == FromA || l.src == FromB || l.src == Edit {
        last := i;
      } else if l.src == Both {
        if l.left != l.right {
          last := i;
        }
      }
      var n := last - i;
      if n > MaxContext {
        n := MaxContext;
      }
      next := next[i := n];
      i := i - 1;
    }
  }

  // ---------------------------------------------------------------------------
  // Distance to the nearest change

  /** The last line before i that is not an unchanged "=" line, or
      -MaxContext when there is none (lastChangedLine's starting value). */
  function LastChanged(d: DiffSolution, i: nat): (r: int)
    requires i <= |d|
    ensures r == -MaxContext || (0 <= r < i && !TextFormat.Unchanged(d[r]))
    ensures forall m :: 0 <= m < i && r < m ==> TextFormat.Unchanged(d[m])
    decreases i
  {
    if i == 0 then -MaxContext
    else if !TextFormat.Unchanged(d[i - 1]) then i - 1
    else LastChanged(d, i - 1)
  }

  /** closestChange for line i: 0 for a line that is not an unchanged "="
      line; otherwise the distance to the nearest change before or after,
      with MaxContext (no change within Context lines) written as -1. So the
      value is always -1 or between 1 and Context. */
  function Closest(d: DiffSolution, i: nat): (r: int)
    requires i < |d|
    ensures !TextFormat.Unchanged(d[i]) ==> r == 0
    ensures TextFormat.Unchanged(d[i]) ==> r == -1 || 1 <= r <= Context
  {
    if !TextFormat.Unchanged(d[i]) then 0
    else
      var c := Min(i - LastChanged(d, i), NextChange(d, i));
      if c == MaxContext then -1 else c
  }

  /** Every line has a real source, as every line the differs emit does. */
  predicate Sourced(d: DiffSolution)
  {
    forall k :: 0 <= k < |d| ==> d[k].src != Unknown
  }

  lemma ChangedIsNotUnchanged(l: Line)
    requires l.src != Unknown
    ensures Changed(l) <==> !TextFormat.Unchanged(l)
  {
  }

  /** A line is hidden (-1) exactly when it is unchanged and no line within
      Context lines of it, before or after, is a change. */
  lemma HiddenIffFarFromChanges(d: DiffSolution, i: nat)
    requires i < |d| && Sourced(d)
    ensures Closest(d, i) == -1 <==> forall m :: 0 <= m < |d| && i - Context <= m <= i + Context ==> TextFormat.Unchanged(d[m])
  {
    var last := LastChanged(d, i);
    if Closest(d, i) == -1 {
      assert TextFormat.Unchanged(d[i]);
      assert i - last >= MaxContext && NextChange(d, i) == MaxContext;
      forall m | 0 <= m < |d| && i - Context <= m <= i + Context ensures TextFormat.Unchanged(d[m]) {
        if m >= i {
          ChangedIsNotUnchanged(d[m]);
          match NextChanged(d, i)
          case None =>
          case Some(k) =>
        }
      }
    } else if TextFormat.Unchanged(d[i]) {
      var c := Min(i - last, NextChange(d, i));
      assert c < MaxContext;
      if i - last < MaxContext {
        assert 0 <= last && i - Context <= last <= i + Context && !TextFormat.Unchanged(d[last]);
      } else {
        var k := NextChanged(d, i).value;
        ChangedIsNotUnchanged(d[k]);
        assert i - Context <= k <= i + Context && !TextFormat.Unchanged(d[k]);
      }
    }
  }

  /** The forward loop that computes closestChange, carrying lastChangedLine. */
  method ClosestChanges(d: DiffSolution, next: seq<int>) returns (cc: seq<int>)
    requires |next| == |d| && forall i :: 0 <= i < |d| ==> next[i] == NextChange(d, i)
    ensures |cc| == |d| && forall i :: 0 <= i < |d| ==> cc[i] == Closest(d, i)
  {
    cc := [];
    var last := -MaxContext;
    var i := 0;
    while i < |d|
      invariant i <= |d| && |cc| == i
      invariant last == LastChanged(d, i)
      invariant forall k :: 0 <= k < i ==> cc[k] == Closest(d, k)
      decreases |d| - i
    {
      var l := d[i];
      var c := 0;
      if l.src == Both && l.left == l.right {
        c := i - last;
        if c > next[i] {
          c := next[i];
        }
        if c == MaxContext {
          c := -1;
        }
      } else {
        last := i;
      }
      cc := cc + [c];
      i := i + 1;
    }
  }

  // ---------------------------------------------------------------------------
  // Word-level rendering of an edited line

  /** Rendered output as pieces: markup the renderer adds, and escaped text
      taken from the input. */
  datatype Piece = Markup(s: string) | Text(s: string)

  function Render(ps: seq<Piece>): string
  {
    if ps == [] then "" else ps[0].s + Render(ps[1..])
  }

  /** The text a reader sees: the Text pieces only. */
  function Visible(ps: seq<Piece>): string
  {
    if ps == [] then "" else (if ps[0].Text? then ps[0].s else "") + Visible(ps[1..])
  }

  /** spanTmpl executed with a class and (escaped) contents. */
  function Span(cls: string, contents: string): seq<Piece>
  {
    [Markup("<span class='" + cls + "'>"), Text(contents), Markup("</span>")]
  }

  /** What one word adds to the left and right renderings. */
  function WordPieces(w: Line, esc: string -> string): (seq<Piece>, seq<Piece>)
  {
    match w.src
    case FromA => (Span("w-add", esc(w.left)), Span("w-del", esc("")))
    case FromB => (Span("w-del", esc("")), Span("w-add", esc(w.right)))
    case Edit => (Span("w-edit", esc(w.left)), Span("w-edit", esc(w.right)))
    case Both => ([Text(esc(w.left))], [Text(esc(w.right))])
    case Unknown => ([], [])
  }

  function LinePieces(d: DiffSolution, esc: string -> string): (seq<Piece>, seq<Piece>)
  {
    if d == [] then ([], [])
    else
      var w := WordPieces(d[0], esc);
      var rest := LinePieces(d[1..], esc);
      (w.0 + rest.0, w.1 + rest.1)
  }

  /** HTMLLine: the left and right renderings of a word-level solution. */
  function HTMLLine(d: DiffSolution, esc: string -> string): (string, string)
  {
    var ps := LinePieces(d, esc);
    (Render(ps.0), Render(ps.1))
  }

  function EscapeAll(ws: seq<string>, esc: string -> string): seq<string>
  {
    if ws == [] then [] else [esc(ws[0])] + EscapeAll(ws[1..], esc)
  }

  lemma {:induction false} VisibleAppend(ps: seq<Piece>, qs: seq<Piece>)
    ensures Visible(ps + qs) == Visible(ps) + Visible(qs)
  {
    if ps == [] {
      assert ps + qs == qs;
    } else {
      assert (ps + qs)[0] == ps[0] && (ps + qs)[1..] == ps[1..] + qs;
      VisibleAppend(ps[1..], qs);
    }
  }

  lemma SpanVisible(cls: string, contents: string)
    ensures Visible(Span(cls, contents)) == contents
  {
    var ps := Span(cls, contents);
    assert Visible(ps[2..]) == "" by {
      assert ps[2..][1..] == [];
    }
    assert Visible(ps[1..]) == contents + Visible(ps[2..]) by {
      assert ps[1..][1..] == ps[2..];
    }
  }

  /** What one word shows on each side. */
  lemma WordVisible(w: Line, esc: string -> string)
    requires esc("") == "" && w.src != Unknown
    ensures Visible(WordPieces(w, esc).0) == (if w.src != FromB then esc(w.left) else "")
    ensures Visible(WordPieces(w, esc).1) == (if w.src != FromA then esc(w.right) else "")
  {
    match w.src
    case FromA =>
      SpanVisible("w-add", esc(w.left));
      SpanVisible("w-del", esc(""));
    case FromB =>
      SpanVisible("w-del", esc(""));
      SpanVisible("w-add", esc(w.right));
    case Edit =>
      SpanVisible("w-edit", esc(w.left));
      SpanVisible("w-edit", esc(w.right));
    case Both =>
      assert Visible([Text(esc(w.left))]) == esc(w.left) + Visible([]);
      assert Visible([Text(esc(w.right))]) == esc(w.right) + Visible([]);
  }

  lemma ColumnsCons(w: Line, d: DiffSolution)
    ensures Lefts([w] + d) == (if w.src != FromB then [w.left] else []) + Lefts(d)
    ensures Rights([w] + d) == (if w.src != FromA then [w.right] else []) + Rights(d)
  {
    ColumnsAppend([w], d);
    ColumnsOne(w);
  }

  lemma SourcedTail(d: DiffSolution)
    requires d != [] && Sourced(d)
    ensures Sourced(d[1..])
  {
    forall k | 0 <= k < |d[1..]| ensures d[1..][k].src != Unknown {
      assert d[1..][k] == d[k + 1];
    }
  }

  /** Word highlighting never changes the text: the visible text of the left
      rendering is the left words, each escaped, in order (for an escaper
      that maps "" to "", as any does). */
  lemma {:induction false} LeftPiecesVisible(d: DiffSolution, esc: string -> string)
    requires esc("") == "" && Sourced(d)
    ensures Visible(LinePieces(d, esc).0) == Concat(EscapeAll(Lefts(d), esc))
  {
    if d != [] {
      var w := d[0];
      SourcedTail(d);
      LeftPiecesVisible(d[1..], esc);
      var wp := WordPieces(w, esc);
      var rest := LinePieces(d[1..], esc);
      VisibleAppend(wp.0, rest.0);
      WordVisible(w, esc);
      assert LinePieces(d, esc).0 == wp.0 + rest.0;
      var t := EscapeAll(Lefts(d[1..]), esc);
      if w.src != FromB {
        assert EscapeAll(Lefts(d), esc) == [esc(w.left)] + t;
        assert ([esc(w.left)] + t)[1..] == t;
      } else {
        assert Lefts(d) == Lefts(d[1..]);
      }
    }
  }

  /** And likewise on the right. */
  lemma {:induction false} RightPiecesVisible(d: DiffSolution, esc: string -> string)
    requires esc("") == "" && Sourced(d)
    ensures Visible(LinePieces(d, esc).1) == Concat(EscapeAll(Rights(d), esc))
  {
    if d != [] {
      var w := d[0];
      SourcedTail(d);
      RightPiecesVisible(d[1..], esc);
      var wp := WordPieces(w, esc);
      var rest := LinePieces(d[1..], esc);
      VisibleAppend(wp.1, rest.1);
      WordVisible(w, esc);
      assert LinePieces(d, esc).1 == wp.1 + rest.1;
      var t := EscapeAll(Rights(d[1..]), esc);
      if w.src != FromA {
        assert EscapeAll(Rights(d), esc) == [esc(w.right)] + t;
        assert ([esc(w.right)] + t)[1..] == t;
      } else {
        assert Rights(d) == Rights(d[1..]);
      }
    }
  }

  function Identity(s: string): string { s }

  lemma {:induction false} EscapeAllIdentity(ws: seq<string>)
    ensures EscapeAll(ws, Identity) == ws
  {
    if ws != [] {
      EscapeAllIdentity(ws[1..]);
    }
  }

  /** The contents of an edited line: the word-level rendering, or the whole
      escaped line on each side when DiffLine gives up. */
  function EditContents(a: string, b: string, isWord: char -> bool, esc: string -> string): (r: (string, string))
    ensures Sequence.DiffLine(a, b, isWord).None? ==> r == (esc(a), esc(b))
  {
    match Sequence.DiffLine(a, b, isWord)
    case None => (esc(a), esc(b))
    case Some(sol) => HTMLLine(sol, esc)
  }

  /** The word solution of an edited line has real sources throughout. */
  lemma DiffLineSourced(a: string, b: string, isWord: char -> bool)
    requires Sequence.DiffLine(a, b, isWord).Some?
    ensures Sourced(Sequence.DiffLine(a, b, isWord).value)
  {
    var aw := Sequence.SplitLine(a, isWord);
    var bw := Sequence.SplitLine(b, isWord);
    var sol := Sequence.DiffLine(a, b, isWord).value;
    assert sol == Sequence.Solve(aw, bw, false, Sequence.Untrimmed);
    assert forall k :: 0 <= k < |sol| ==> Align.WellTagged(Sequence.LineEqOf(false, Sequence.Untrimmed), sol[k]);
  }

  /** Rendered without escaping, an edited line shows exactly its own text on
      each side, whichever words are highlighted. */
  lemma EditShowsWholeLine(a: string, b: string, isWord: char -> bool)
    requires Sequence.DiffLine(a, b, isWord).Some?
    ensures var ps := LinePieces(Sequence.DiffLine(a, b, isWord).value, Identity);
      Visible(ps.0) == a && Visible(ps.1) == b
  {
    var sol := Sequence.DiffLine(a, b, isWord).value;
    DiffLineSourced(a, b, isWord);
    LeftPiecesVisible(sol, Identity);
    RightPiecesVisible(sol, Identity);
    EscapeAllIdentity(Lefts(sol));
    EscapeAllIdentity(Rights(sol));
  }

  // ---------------------------------------------------------------------------
  // The line loop, tabs and pane selection

  /** divTmpl executed with a class and contents. */
  function Div(cls: string, contents: string): string
  {
    "<div class='" + cls + "'>" + contents + "</div>\n"
  }

  /** The two counters and the four buffers of HTML's loop. */
  datatype Panes = Panes(li: nat, ri: nat, lg: string, rg: string, lb: string, rb: string)

  /** One iteration of the loop for line l with class prefix lc. */
  function RenderRow(p: Panes, l: Line, lc: string, isWord: char -> bool, esc: string -> string): (r: Panes)
    ensures r.li == p.li + (if l.src == FromB || (l.src == Unknown && l.left == l.right) then 0 else 1)
    ensures r.ri == p.ri + (if l.src == FromA || (l.src == Unknown && l.left == l.right) then 0 else 1)
  {
    if l.src == FromA then
      Panes(p.li + 1, p.ri,
        p.lg + Div(lc + "la", Decimal(p.li + 1)), p.rg + Div(lc, esc("")),
        p.lb + Div(lc + "la", esc(l.left)), p.rb + Div(lc, esc("")))
    else if l.src == FromB then
      Panes(p.li, p.ri + 1,
        p.lg + Div(lc, esc("")), p.rg + Div(lc + "la", Decimal(p.ri + 1)),
        p.lb + Div(lc, esc("")), p.rb + Div(lc + "la", esc(l.right)))
    else if l.src == Edit then
      var c := EditContents(l.left, l.right, isWord, esc);
      Panes(p.li + 1, p.ri + 1,
        p.lg + Div(lc + "ln", Decimal(p.li + 1)), p.rg + Div(lc + "ln", Decimal(p.ri + 1)),
        p.lb + Div(lc + "ln", c.0), p.rb + Div(lc + "ln", c.1))
    else if l.left != l.right then
      Panes(p.li + 1, p.ri + 1,
        p.lg + Div(lc + "line-ws", Decimal(p.li + 1)), p.rg + Div(lc + "line-ws", Decimal(p.ri + 1)),
        p.lb + Div(lc + "line-ws", esc(l.left)), p.rb + Div(lc + "line-ws", esc(l.right)))
    else if l.src == Both then
      Panes(p.li + 1, p.ri + 1,
        p.lg + Div(lc + "lm", Decimal(p.li + 1)), p.rg + Div(lc + "lm", Decimal(p.ri + 1)),
        p.lb + Div(lc + "lm", esc(l.left)), p.rb + Div(lc + "lm", esc(l.right)))
    else
      assert l.src == Unknown && l.left == l.right;
      p
  }

  /** The class prefix of line i. */
  function LineClass(d: DiffSolution, i: nat): string
    requires i < |d|
  {
    "lc-" + Decimal(Closest(d, i)) + " line "
  }

  /** The loop from line i on. With real sources the counters end at the
      number of lines with a left side and with a right side. */
  function RenderRows(d: DiffSolution, i: nat, p: Panes, isWord: char -> bool, esc: string -> string): (r: Panes)
    requires i <= |d|
    ensures Sourced(d) ==> r.li == p.li + |Lefts(d[i..])| && r.ri == p.ri + |Rights(d[i..])|
    decreases |d| - i
  {
    if i == |d| then p
    else
      SuffixCounts(d, i);
      RenderRows(d, i + 1, RenderRow(p, d[i], LineClass(d, i), isWord, esc), isWord, esc)
  }

  /** The columns from row i on: row i's sides, then the rest. */
  lemma SuffixCounts(d: DiffSolution, i: nat)
    requires i < |d|
    ensures |Lefts(d[i..])| == (if d[i].src != FromB then 1 else 0) + |Lefts(d[i + 1..])|
    ensures |Rights(d[i..])| == (if d[i].src != FromA then 1 else 0) + |Rights(d[i + 1..])|
  {
    assert d[i..] == [d[i]] + d[i + 1..];
    ColumnsCons(d[i], d[i + 1..]);
  }

  const TabSpan: string := "<span class='delta-tab'>\t</span>"

  /** strings.Replace(s, "\t", TabSpan, -1). */
  function ReplaceTabs(s: string): (r: string)
    ensures '\t' !in s ==> r == s
  {
    if s == [] then "" else (if s[0] == '\t' then TabSpan else [s[0]]) + ReplaceTabs(s[1..])
  }

  /** Replacing tabs works piece by piece, so every tab of the panes is
      replaced, wherever it came from. */
  lemma {:induction false} ReplaceTabsAppend(x: string, y: string)
    ensures ReplaceTabs(x + y) == ReplaceTabs(x) + ReplaceTabs(y)
  {
    if x == [] {
      assert x + y == y;
    } else {
      assert (x + y)[0] == x[0] && (x + y)[1..] == x[1..] + y;
      ReplaceTabsAppend(x[1..], y);
    }
  }

  /** Each tab becomes exactly one delta-tab span. */
  lemma ReplaceTab()
    ensures ReplaceTabs("\t") == TabSpan
  {
  }

  const GutterLeft: string := "<div id='gutter-left' class='gutter'>\n"
  const GutterRight: string := "<div id='gutter-right' class='gutter'>\n"
  const PaneLeft: string := "<div id='diff-left' class='diff-pane'><div class='diff-pane-contents'>\n"
  const PaneRight: string := "<div id='diff-right' class='diff-pane'><div class='diff-pane-contents'>\n"

  /** The buffers after the loop over every line. */
  function Layout(d: DiffSolution, isWord: char -> bool, esc: string -> string): (p: Panes)
    ensures Sourced(d) ==> p.li == |Lefts(d)| && p.ri == |Rights(d)|
  {
    assert d[0..] == d;
    RenderRows(d, 0, Panes(0, 0, GutterLeft, GutterRight, PaneLeft, PaneRight), isWord, esc)
  }

  function LeftSide(p: Panes): string
  {
    p.lg + "</div>" + ReplaceTabs(p.lb + "</div></div>")
  }

  function RightSide(p: Panes): string
  {
    p.rg + "</div>" + ReplaceTabs(p.rb + "</div></div>")
  }

  /** HTML: the right gutter and pane alone when no line has a left side,
      the left alone when no line has a right side, otherwise both. */
  function HTML(d: DiffSolution, isWord: char -> bool, esc: string -> string): (r: string)
    ensures Sourced(d) && Lefts(d) == [] ==> r == RightSide(Layout(d, isWord, esc))
    ensures Sourced(d) && Lefts(d) != [] && Rights(d) == [] ==> r == LeftSide(Layout(d, isWord, esc))
    ensures Sourced(d) && Lefts(d) != [] && Rights(d) != [] ==>
      r == LeftSide(Layout(d, isWord, esc)) + RightSide(Layout(d, isWord, esc))
  {
    var p := Layout(d, isWord, esc);
    if p.li == 0 then RightSide(p)
    else if p.ri == 0 then LeftSide(p)
    else LeftSide(p) + RightSide(p)
  }

  /** The histogram diff of an empty file against another renders only the
      right pane, through HTML's first branch. */
  lemma EmptyLeftShowsRightOnly(b: string, trim: string -> string, isWord: char -> bool, esc: string -> string)
    ensures var d := Histogram.HistogramDiff("", b, trim);
      HTML(d, isWord, esc) == RightSide(Layout(d, isWord, esc))
  {
    var d := Histogram.HistogramDiff("", b, trim);
    assert Sourced(d);
  }
}
