/** formatter/text.go: ColoredText, the terminal rendering of a solution.
    An unchanged line prints with a space on each side; any other line prints
    its left column as a red "-" row and its right column as a green "+" row,
    each only when that column is not empty. */
module TextFormat {
  import opened Wrappers
  import opened Text
  import opened Solution
  import opened Seqs

  const Esc: char := '\U{1B}'
  /** The start of a red "-" row, the start of a green "+" row, and the
      colour reset that ends both. */
  const DelStart: string := [Esc] + "[31m-"
  const AddStart: string := [Esc] + "[32m+"
  const Reset: string := [Esc] + "[0m"

  /** An "=" line whose two columns are the same string. */
  predicate Unchanged(l: Line)
  {
    l.src == Both && l.left == l.right
  }

  /** The output of one iteration of the loop. */
  function RenderLine(l: Line): string
  {
    if Unchanged(l) then " " + l.left + " \n"
    else
      (if l.left != "" then DelStart + l.left + Reset + "\n" else "")
      + (if l.right != "" then AddStart + l.right + Reset + "\n" else "")
  }

  /** ColoredText: the outputs of the lines, in order. Nothing at all is
      printed exactly when every line is a change whose two columns are
      empty. */
  function ColoredText(d: DiffSolution): (r: string)
    ensures r == "" <==> forall k :: 0 <= k < |d| ==> !Unchanged(d[k]) && d[k].left == "" && d[k].right == ""
  {
    if d == [] then ""
    else
      var rest := ColoredText(d[1..]);
      assert forall k :: 1 <= k < |d| ==> d[1..][k - 1] == d[k];
      RenderLine(d[0]) + rest
  }

  /** The output of a concatenation is the concatenation of the outputs. */
  lemma {:induction false} ColoredTextAppend(d: DiffSolution, e: DiffSolution)
    ensures ColoredText(d + e) == ColoredText(d) + ColoredText(e)
  {
    if d == [] {
      AppendEmpty(e);
    } else {
      AppendFront(d, e);
      ColoredTextAppend(d[1..], e);
      assert ColoredText(d + e) == RenderLine(d[0]) + ColoredText(d[1..] + e);
      assert ColoredText(d) == RenderLine(d[0]) + ColoredText(d[1..]);
      AppendAssoc(RenderLine(d[0]), ColoredText(d[1..]), ColoredText(e));
    }
  }

  lemma ColoredTextSingle(l: Line)
    ensures ColoredText([l]) == RenderLine(l)
  {
    assert [l][1..] == [];
  }

  // ---------------------------------------------------------------------------
  // Reading the output back

  datatype Mark = Context | Minus | Plus

  /** One printed row without its newline: what it marks and the text it shows. */
  datatype Row = Row(mark: Mark, text: string)

  /** The rows a reader sees for one line. */
  function Rows(l: Line): seq<Row>
  {
    if Unchanged(l) then [Row(Context, l.left)]
    else
      (if l.left != "" then [Row(Minus, l.left)] else [])
      + (if l.right != "" then [Row(Plus, l.right)] else [])
  }

  function Shown(d: DiffSolution): seq<Row>
  {
    if d == [] then [] else Rows(d[0]) + Shown(d[1..])
  }

  function RenderRow(w: Row): string
  {
    match w.mark
    case Context => " " + w.text + " "
    case Minus => DelStart + w.text + Reset
    case Plus => AddStart + w.text + Reset
  }

  /** Every string followed by a newline. */
  function Terminated(ss: seq<string>): string
  {
    if ss == [] then "" else ss[0] + "\n" + Terminated(ss[1..])
  }

  function RenderRows(ws: seq<Row>): (r: seq<string>)
    ensures |r| == |ws| && forall k :: 0 <= k < |ws| ==> r[k] == RenderRow(ws[k])
  {
    if ws == [] then [] else [RenderRow(ws[0])] + RenderRows(ws[1..])
  }

  /** Recognise one row by its first and last characters. */
  function ParseRow(s: string): Option<Row>
  {
    if |s| >= 2 && s[0] == ' ' && s[|s| - 1] == ' ' then Some(Row(Context, s[1..|s| - 1]))
    else if |s| >= |DelStart| + |Reset| && s[..|DelStart|] == DelStart && s[|s| - |Reset|..] == Reset then
      Some(Row(Minus, s[|DelStart|..|s| - |Reset|]))
    else if |s| >= |AddStart| + |Reset| && s[..|AddStart|] == AddStart && s[|s| - |Reset|..] == Reset then
      Some(Row(Plus, s[|AddStart|..|s| - |Reset|]))
    else None
  }

  function ParseRows(ss: seq<string>): Option<seq<Row>>
  {
    if ss == [] then Some([])
    else
      var w :- ParseRow(ss[0]);
      var ws :- ParseRows(ss[1..]);
      Some([w] + ws)
  }

  /** Read printed output back into rows: it must end in a newline (or be
      empty), and every row must be recognised. */
  function Parse(out: string): Option<seq<Row>>
  {
    var ls := SplitLines(out);
    if ls[|ls| - 1] != "" then None else ParseRows(ls[..|ls| - 1])
  }

  lemma ParseRenderRow(w: Row)
    ensures ParseRow(RenderRow(w)) == Some(w)
  {
    var s := RenderRow(w);
    match w.mark
    case Context =>
      assert s[1..|s| - 1] == w.text;
    case Minus =>
      assert s[0] == Esc;
      assert s[..|DelStart|] == DelStart && s[|s| - |Reset|..] == Reset;
      assert s[|DelStart|..|s| - |Reset|] == w.text;
    case Plus =>
      assert s[0] == Esc;
      assert s[..|DelStart|] != DelStart by {
        assert s[3] == '2' && DelStart[3] == '1';
      }
      assert s[..|AddStart|] == AddStart && s[|s| - |Reset|..] == Reset;
      assert s[|AddStart|..|s| - |Reset|] == w.text;
  }

  lemma {:induction false} ParseRenderRows(ws: seq<Row>)
    ensures ParseRows(RenderRows(ws)) == Some(ws)
  {
    if ws != [] {
      var ss := RenderRows(ws);
      assert ss[1..] == RenderRows(ws[1..]);
      ParseRenderRow(ws[0]);
      ParseRenderRows(ws[1..]);
      assert [ws[0]] + ws[1..] == ws;
    }
  }

  lemma {:induction false} TerminatedJoin(ss: seq<string>)
    ensures Terminated(ss) == JoinLines(ss + [""])
  {
    if ss != [] {
      assert (ss + [""])[0] == ss[0] && (ss + [""])[1..] == ss[1..] + [""];
      TerminatedJoin(ss[1..]);
    }
  }

  lemma {:induction false} TerminatedAppend(ss: seq<string>, tt: seq<string>)
    ensures Terminated(ss + tt) == Terminated(ss) + Terminated(tt)
  {
    if ss == [] {
      assert ss + tt == tt;
    } else {
      assert (ss + tt)[0] == ss[0] && (ss + tt)[1..] == ss[1..] + tt;
      TerminatedAppend(ss[1..], tt);
    }
  }

  lemma {:induction false} RenderRowsAppend(ws: seq<Row>, vs: seq<Row>)
    ensures RenderRows(ws + vs) == RenderRows(ws) + RenderRows(vs)
  {
  }

  lemma RenderLineRows(l: Line)
    ensures RenderLine(l) == Terminated(RenderRows(Rows(l)))
  {
    var ws := Rows(l);
    if !Unchanged(l) && l.left != "" && l.right != "" {
      assert RenderRows(ws) == [RenderRow(ws[0]), RenderRow(ws[1])];
      assert Terminated(RenderRows(ws)[1..]) == RenderRow(ws[1]) + "\n";
    }
  }

  lemma {:induction false} ColoredTextRows(d: DiffSolution)
    ensures ColoredText(d) == Terminated(RenderRows(Shown(d)))
  {
    if d != [] {
      ColoredTextRows(d[1..]);
      RenderLineRows(d[0]);
      RenderRowsAppend(Rows(d[0]), Shown(d[1..]));
      TerminatedAppend(RenderRows(Rows(d[0])), RenderRows(Shown(d[1..])));
    }
  }

  /** No column holds a newline, as for lines that came from splitting files. */
  predicate SingleLines(d: DiffSolution)
  {
    forall k :: 0 <= k < |d| ==> '\n' !in d[k].left && '\n' !in d[k].right
  }

  lemma {:induction false} ShownSingleLines(d: DiffSolution)
    requires SingleLines(d)
    ensures forall k :: 0 <= k < |Shown(d)| ==> '\n' !in Shown(d)[k].text
  {
    if d != [] {
      assert SingleLines(d[1..]) by {
        assert forall k :: 1 <= k < |d| ==> d[1..][k - 1] == d[k];
      }
      ShownSingleLines(d[1..]);
      var ws := Rows(d[0]);
      assert forall k :: 0 <= k < |ws| ==> '\n' !in ws[k].text;
    }
  }

  lemma RenderRowSingle(w: Row)
    requires '\n' !in w.text
    ensures '\n' !in RenderRow(w)
  {
  }

  /** The output can be read back: split into rows, it gives exactly the rows
      of every line in order, so nothing is printed that does not belong to a
      line and the markers tell a reader which column each row came from. */
  lemma ParseColoredText(d: DiffSolution)
    requires SingleLines(d)
    ensures Parse(ColoredText(d)) == Some(Shown(d))
  {
    var ws := Shown(d);
    var ss := RenderRows(ws);
    ColoredTextRows(d);
    TerminatedJoin(ss);
    ShownSingleLines(d);
    forall k | 0 <= k < |ss + [""]| ensures '\n' !in (ss + [""])[k] {
      if k < |ss| {
        RenderRowSingle(ws[k]);
      }
    }
    SplitJoinLines(ss + [""]);
    assert (ss + [""])[..|ss|] == ss;
    ParseRenderRows(ws);
  }

  /** The texts of the rows a reader of one side sees: context and "-" rows
      for the left file, context and "+" rows for the right file. */
  function LeftTexts(ws: seq<Row>): seq<string>
  {
    if ws == [] then []
    else (if ws[0].mark != Plus then [ws[0].text] else []) + LeftTexts(ws[1..])
  }

  function RightTexts(ws: seq<Row>): seq<string>
  {
    if ws == [] then []
    else (if ws[0].mark != Minus then [ws[0].text] else []) + RightTexts(ws[1..])
  }

  /** Each column holds something only where the line's source says so, as
      for every line the add functions build. */
  predicate Tagged(d: DiffSolution)
  {
    forall k :: 0 <= k < |d| ==> (d[k].src == FromB ==> d[k].left == "") && (d[k].src == FromA ==> d[k].right == "")
  }

  /** The left column without the empty entries of changed lines. */
  function VisibleLefts(d: DiffSolution): seq<string>
  {
    if d == [] then []
    else (if d[0].src != FromB && (d[0].left != "" || Unchanged(d[0])) then [d[0].left] else []) + VisibleLefts(d[1..])
  }

  function VisibleRights(d: DiffSolution): seq<string>
  {
    if d == [] then []
    else (if d[0].src != FromA && (d[0].right != "" || Unchanged(d[0])) then [d[0].right] else []) + VisibleRights(d[1..])
  }

  lemma LeftTextsAppend(ws: seq<Row>, vs: seq<Row>)
    ensures LeftTexts(ws + vs) == LeftTexts(ws) + LeftTexts(vs)
    ensures RightTexts(ws + vs) == RightTexts(ws) + RightTexts(vs)
  {
    LeftOnlyAppend(ws, vs);
    RightOnlyAppend(ws, vs);
  }

  lemma {:induction false} LeftOnlyAppend(ws: seq<Row>, vs: seq<Row>)
    ensures LeftTexts(ws + vs) == LeftTexts(ws) + LeftTexts(vs)
  {
    if ws == [] {
      AppendEmpty(vs);
    } else {
      var x := ws + vs;
      AppendFront(ws, vs);
      LeftOnlyAppend(ws[1..], vs);
      var h := if ws[0].mark != Plus then [ws[0].text] else [];
      assert LeftTexts(x) == h + LeftTexts(x[1..]);
      assert LeftTexts(ws) == h + LeftTexts(ws[1..]);
      AppendAssoc(h, LeftTexts(ws[1..]), LeftTexts(vs));
    }
  }

  lemma {:induction false} RightOnlyAppend(ws: seq<Row>, vs: seq<Row>)
    ensures RightTexts(ws + vs) == RightTexts(ws) + RightTexts(vs)
  {
    if ws == [] {
      AppendEmpty(vs);
    } else {
      var x := ws + vs;
      AppendFront(ws, vs);
      RightOnlyAppend(ws[1..], vs);
      var h := if ws[0].mark != Minus then [ws[0].text] else [];
      assert RightTexts(x) == h + RightTexts(x[1..]);
      assert RightTexts(ws) == h + RightTexts(ws[1..]);
      AppendAssoc(h, RightTexts(ws[1..]), RightTexts(vs));
    }
  }

  /** Reading one side of the output gives that side's file, except for the
      blank lines that were deleted, added or edited, which print nothing. */
  lemma {:induction false} ShownSides(d: DiffSolution)
    requires Tagged(d)
    ensures LeftTexts(Shown(d)) == VisibleLefts(d)
    ensures RightTexts(Shown(d)) == VisibleRights(d)
  {
    if d != [] {
      assert Tagged(d[1..]) by {
        assert forall k :: 1 <= k < |d| ==> d[1..][k - 1] == d[k];
      }
      ShownSides(d[1..]);
      assert Shown(d) == Rows(d[0]) + Shown(d[1..]);
      LeftTextsAppend(Rows(d[0]), Shown(d[1..]));
      RowsSides(d[0]);
    }
  }

  /** The rows of one line, read by side. */
  lemma RowsSides(l: Line)
    requires (l.src == FromB ==> l.left == "") && (l.src == FromA ==> l.right == "")
    ensures LeftTexts(Rows(l)) == if l.src != FromB && (l.left != "" || Unchanged(l)) then [l.left] else []
    ensures RightTexts(Rows(l)) == if l.src != FromA && (l.right != "" || Unchanged(l)) then [l.right] else []
  {
    var ws := Rows(l);
    if Unchanged(l) {
      assert ws == [Row(Context, l.left)];
      assert LeftTexts(ws) == [l.left] + LeftTexts(ws[1..]);
      assert RightTexts(ws) == [l.left] + RightTexts(ws[1..]);
    } else if l.left != "" && l.right != "" {
      assert ws == [Row(Minus, l.left), Row(Plus, l.right)];
      assert ws[1..] == [Row(Plus, l.right)];
      assert ws[1..][1..] == [];
      assert LeftTexts(ws[1..]) == [] + LeftTexts(ws[1..][1..]);
      assert LeftTexts(ws) == [l.left] + LeftTexts(ws[1..]);
      assert RightTexts(ws[1..]) == [l.right] + RightTexts(ws[1..][1..]);
      assert RightTexts(ws) == [] + RightTexts(ws[1..]);
    } else if l.left != "" {
      assert ws == [Row(Minus, l.left)];
      assert ws[1..] == [];
    } else if l.right != "" {
      assert ws == [Row(Plus, l.right)];
      assert ws[1..] == [];
    } else {
      assert ws == [];
    }
  }

  /** An "=" line whose columns differ, for instance only in surrounding
      whitespace, prints as a "-" row and a "+" row like an edit. */
  lemma WhitespaceChangePrintsBoth(l: Line)
    requires l.src == Both && l.left != l.right && l.left != "" && l.right != ""
    ensures Rows(l) == [Row(Minus, l.left), Row(Plus, l.right)]
    ensures RenderLine(l) == DelStart + l.left + Reset + "\n" + AddStart + l.right + Reset + "\n"
  {
  }
}
