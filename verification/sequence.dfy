/** sequence.go: SequenceDiffer, the dynamic-programming differ used both for
    whole files (SequenceDiff, comparing lines with surrounding whitespace
    trimmed) and for single lines (DiffLine, comparing words exactly). */
module Sequence {
  import opened Wrappers
  import opened Text
  import opened Solution
  import opened Align
  import opened Seqs

  /** isLineEqual: trimmed comparison when ignoreWhitespace is set, exact
      comparison otherwise. strings.TrimSpace is the parameter trim. */
  function IsLineEqual(ignoreWhitespace: bool, trim: string -> string, x: string, y: string): bool
  {
    if ignoreWhitespace then trim(x) == trim(y) else x == y
  }

  function LineEqOf(ignoreWhitespace: bool, trim: string -> string): LineEq
  {
    (x: string, y: string) => IsLineEqual(ignoreWhitespace, trim, x, y)
  }

  /** What the two comparison modes mean for the rows: in a file diff (which
      ignores surrounding whitespace) an "=" row pairs lines that are equal
      once trimmed and a "~" row lines that are not; in a differ made by
      NewSequenceDiffer (histogram gaps, DiffLine) an "=" row pairs identical
      lines and a "~" row different ones. */
  lemma LineEqualModes(a: string, b: string, trim: string -> string, x: seq<string>, y: seq<string>)
    ensures var r := SequenceDiff(a, b, trim);
      forall k :: 0 <= k < |r| ==>
        && (r[k].src == Both ==> trim(r[k].left) == trim(r[k].right))
        && (r[k].src == Edit ==> trim(r[k].left) != trim(r[k].right))
    ensures var r := Solve(x, y, false, trim);
      forall k :: 0 <= k < |r| ==>
        && (r[k].src == Both ==> r[k].left == r[k].right)
        && (r[k].src == Edit ==> r[k].left != r[k].right)
  {
    var r := SequenceDiff(a, b, trim);
    forall k | 0 <= k < |r|
      ensures r[k].src == Both ==> trim(r[k].left) == trim(r[k].right)
      ensures r[k].src == Edit ==> trim(r[k].left) != trim(r[k].right)
    {
      assert WellTagged(LineEqOf(true, trim), r[k]);
    }
    var q := Solve(x, y, false, trim);
    forall k | 0 <= k < |q|
      ensures q[k].src == Both ==> q[k].left == q[k].right
      ensures q[k].src == Edit ==> q[k].left != q[k].right
    {
      assert WellTagged(LineEqOf(false, trim), q[k]);
    }
  }

  /** addLineB applied to each line of ls in turn: every line of B as an addition. */
  function AddLinesB(s: DiffSolution, ls: seq<string>): (r: DiffSolution)
    ensures |r| == |s| + |ls| && r[..|s|] == s
    ensures forall k :: 0 <= k < |ls| ==> r[|s| + k] == Line("", ls[k], FromB)
    ensures Lefts(r) == Lefts(s) && Rights(r) == Rights(s) + ls
    decreases |ls|
  {
    if ls == [] then s
    else
      var s1 := AddLineB(s, ls[0]);
      var r := AddLinesB(s1, ls[1..]);
      AddLinesBRows(s, ls, ls[1..], r);
      PrefixOfPrefix(r, s1, s);
      SnocThenRest(Rights(s), ls);
      r
  }

  /** The rows of the rest follow the row added for ls[0]. */
  lemma AddLinesBRows(s: DiffSolution, ls: seq<string>, rest: seq<string>, r: DiffSolution)
    requires ls != [] && rest == ls[1..] && |r| == |s| + |ls| && r[|s|] == Line("", ls[0], FromB)
    requires forall k :: 0 <= k < |rest| ==> r[|s| + 1 + k] == Line("", rest[k], FromB)
    ensures forall k :: 0 <= k < |ls| ==> r[|s| + k] == Line("", ls[k], FromB)
  {
    forall k | 0 <= k < |ls| ensures r[|s| + k] == Line("", ls[k], FromB) {
      if k > 0 {
        assert r[|s| + 1 + (k - 1)] == Line("", rest[k - 1], FromB);
      }
    }
  }

  /** addLineA applied to each line of ls in turn: every line of A as a deletion. */
  function AddLinesA(s: DiffSolution, ls: seq<string>): (r: DiffSolution)
    ensures |r| == |s| + |ls| && r[..|s|] == s
    ensures forall k :: 0 <= k < |ls| ==> r[|s| + k] == Line(ls[k], "", FromA)
    ensures Lefts(r) == Lefts(s) + ls && Rights(r) == Rights(s)
    decreases |ls|
  {
    if ls == [] then s
    else
      var s1 := AddLineA(s, ls[0]);
      var r := AddLinesA(s1, ls[1..]);
      AddLinesARows(s, ls, ls[1..], r);
      PrefixOfPrefix(r, s1, s);
      SnocThenRest(Lefts(s), ls);
      r
  }

  /** The rows of the rest follow the row added for ls[0]. */
  lemma AddLinesARows(s: DiffSolution, ls: seq<string>, rest: seq<string>, r: DiffSolution)
    requires ls != [] && rest == ls[1..] && |r| == |s| + |ls| && r[|s|] == Line(ls[0], "", FromA)
    requires forall k :: 0 <= k < |rest| ==> r[|s| + 1 + k] == Line(rest[k], "", FromA)
    ensures forall k :: 0 <= k < |ls| ==> r[|s| + k] == Line(ls[k], "", FromA)
  {
    forall k | 0 <= k < |ls| ensures r[|s| + k] == Line(ls[k], "", FromA) {
      if k > 0 {
        assert r[|s| + 1 + (k - 1)] == Line(rest[k - 1], "", FromA);
      }
    }
  }

  /** SequenceDiffer.Solve. When A is the single empty line (an empty file)
      the result is B as additions and the empty line of A is dropped;
      otherwise, when B is the single empty line, the result is A as
      deletions. Otherwise the longest shared prefix is copied as "=" lines,
      the rest is computeOptimal's traceback from the end of the prefix, and
      the two columns of the result are exactly A and B. */
  function Solve(a: seq<string>, b: seq<string>, ignoreWhitespace: bool, trim: string -> string): (r: DiffSolution)
    ensures a == [""] ==> |r| == |b| && forall k :: 0 <= k < |b| ==> r[k] == Line("", b[k], FromB)
    ensures a != [""] && b == [""] ==> |r| == |a| && forall k :: 0 <= k < |a| ==> r[k] == Line(a[k], "", FromA)
    ensures Lefts(r) == (if a == [""] then [] else a)
    ensures Rights(r) == (if a != [""] && b == [""] then [] else b)
    ensures forall k :: 0 <= k < |r| ==> WellTagged(LineEqOf(ignoreWhitespace, trim), r[k])
    ensures a != [""] && b != [""] ==>
      var n := PrefixLength(a, b, LineEqOf(ignoreWhitespace, trim), 0);
      n <= |r| && forall k :: 0 <= k < n ==> r[k] == Line(a[k], b[k], Both)
  {
    if a == [""] then
      var r := AddLinesB([], b);
      AllAddedTagged(r, b, LineEqOf(ignoreWhitespace, trim));
      r
    else if b == [""] then
      var r := AddLinesA([], a);
      AllDeletedTagged(r, a, LineEqOf(ignoreWhitespace, trim));
      r
    else PrefixThenTrace(a, b, LineEqOf(ignoreWhitespace, trim), LaterWins)
  }

  /** Additions are tagged correctly whatever the comparison. */
  lemma AllAddedTagged(r: DiffSolution, b: seq<string>, eq: LineEq)
    requires |r| == |b| && forall k :: 0 <= k < |b| ==> r[k] == Line("", b[k], FromB)
    ensures forall k :: 0 <= k < |r| ==> WellTagged(eq, r[k])
  {
  }

  /** Deletions are tagged correctly whatever the comparison. */
  lemma AllDeletedTagged(r: DiffSolution, a: seq<string>, eq: LineEq)
    requires |r| == |a| && forall k :: 0 <= k < |a| ==> r[k] == Line(a[k], "", FromA)
    ensures forall k :: 0 <= k < |r| ==> WellTagged(eq, r[k])
  {
  }

  /** SequenceDiff: split both texts on newlines and diff the lines ignoring
      surrounding whitespace. The left column joined again is the left text
      and the right column is the right text, except that an empty text on
      one side makes the whole of the other side one column. */
  function SequenceDiff(a: string, b: string, trim: string -> string): (r: DiffSolution)
    ensures a == "" ==> Lefts(r) == [] && forall k :: 0 <= k < |r| ==> r[k].src == FromB
    ensures a != "" ==> |Lefts(r)| >= 1 && JoinLines(Lefts(r)) == a
    ensures a != "" && b == "" ==> Rights(r) == [] && forall k :: 0 <= k < |r| ==> r[k].src == FromA
    ensures a == "" || b != "" ==> |Rights(r)| >= 1 && JoinLines(Rights(r)) == b
  {
    SplitLinesEmpty(a);
    SplitLinesEmpty(b);
    JoinSplitLines(a);
    JoinSplitLines(b);
    Solve(SplitLines(a), SplitLines(b), true, trim)
  }

  /** Only the empty text splits into the single empty line. */
  lemma SplitLinesEmpty(s: string)
    ensures SplitLines(s) == [""] <==> s == ""
  {
    if SplitLines(s) == [""] {
      JoinSplitLines(s);
    }
  }

  // ---------------------------------------------------------------------------
  // Words

  /** Every rune of w is a letter or a number. */
  predicate AllWord(w: string, isWord: char -> bool)
  {
    forall k :: 0 <= k < |w| ==> isWord(w[k])
  }

  /** What splitLine produces: non-empty words whose runes are all letters or
      numbers except the last one, which ends every word but the final one
      with a rune that is neither. */
  predicate WellSplit(ws: seq<string>, isWord: char -> bool)
  {
    forall k :: 0 <= k < |ws| ==>
      && |ws[k]| > 0
      && AllWord(ws[k][..|ws[k]| - 1], isWord)
      && (k < |ws| - 1 ==> !isWord(ws[k][|ws[k]| - 1]))
  }

  /** The splitLine loop from the point where the buffer holds w and s remains. */
  function SplitFrom(s: string, isWord: char -> bool, w: string): (r: seq<string>)
    requires AllWord(w, isWord)
    ensures Concat(r) == w + s
    ensures WellSplit(r, isWord)
    decreases |s|
  {
    if s == [] then
      SplitLast(isWord, w);
      if w == [] then [] else [w]
    else
      var w2 := w + [s[0]];
      assert w2 + s[1..] == w + s;
      if isWord(s[0]) then
        WordGrows(isWord, w, s[0]);
        SplitFrom(s[1..], isWord, w2)
      else
        var rest := SplitFrom(s[1..], isWord, "");
        SplitCutFront(isWord, w, s[0], rest);
        [w2] + rest
  }

  /** At the end of the runes the buffer, if any, is the last word. */
  lemma SplitLast(isWord: char -> bool, w: string)
    requires AllWord(w, isWord)
    ensures var r := if w == [] then [] else [w];
      Concat(r) == w + [] && WellSplit(r, isWord)
  {
    if w != [] {
      assert Concat([w]) == w + Concat([]);
      assert AllWord(w[..|w| - 1], isWord);
    }
  }

  /** A letter or number extends the buffer as a run of word runes. */
  lemma WordGrows(isWord: char -> bool, w: string, c: char)
    requires AllWord(w, isWord) && isWord(c)
    ensures AllWord(w + [c], isWord)
  {
  }

  /** Any other rune closes the buffer as a word and starts the next. */
  lemma SplitCutFront(isWord: char -> bool, w: string, c: char, rest: seq<string>)
    requires AllWord(w, isWord) && !isWord(c)
    requires WellSplit(rest, isWord)
    ensures WellSplit([w + [c]] + rest, isWord)
    ensures Concat([w + [c]] + rest) == w + [c] + Concat(rest)
  {
    var w2 := w + [c];
    var r := [w2] + rest;
    assert r[0] == w2 && r[1..] == rest;
    assert w2[..|w2| - 1] == w;
    forall k | 0 <= k < |r|
      ensures |r[k]| > 0 && AllWord(r[k][..|r[k]| - 1], isWord)
      ensures k < |r| - 1 ==> !isWord(r[k][|r[k]| - 1])
    {
      if k > 0 {
        assert r[k] == rest[k - 1];
      }
    }
  }

  /** splitLine: the runes of s cut after every rune that is neither a letter
      nor a number (unicode.IsLetter || unicode.IsNumber is the parameter
      isWord). Nothing is lost and no word is empty. */
  function SplitLine(s: string, isWord: char -> bool): (r: seq<string>)
    ensures Concat(r) == s
    ensures WellSplit(r, isWord)
  {
    assert "" + s == s;
    SplitFrom(s, isWord, "")
  }

  /** The words are determined by the text: any well-split sequence of words
      whose concatenation is s is the one splitLine returns. */
  lemma SplitLineUnique(s: string, isWord: char -> bool, ws: seq<string>)
    requires WellSplit(ws, isWord) && Concat(ws) == s
    ensures ws == SplitLine(s, isWord)
  {
    assert "" + s == s;
    SplitFromUnique(s, isWord, "", ws);
  }

  lemma {:induction false} SplitFromUnique(s: string, isWord: char -> bool, w: string, ws: seq<string>)
    requires AllWord(w, isWord)
    requires WellSplit(ws, isWord) && Concat(ws) == w + s
    ensures ws == SplitFrom(s, isWord, w)
    decreases |s|
  {
    if s == [] {
      SplitEnd(isWord, w, ws);
    } else {
      var w2 := w + [s[0]];
      assert w2 + s[1..] == w + s;
      assert w2[..|w2| - 1] == w;
      if isWord(s[0]) {
        SplitFromUnique(s[1..], isWord, w2, ws);
      } else {
        SplitCut(s, isWord, w, ws);
        assert "" + s[1..] == s[1..];
        SplitFromUnique(s[1..], isWord, "", ws[1..]);
        HeadTail(ws);
      }
    }
  }

  /** With nothing left to read, the words are the buffer, if any. */
  lemma SplitEnd(isWord: char -> bool, w: string, ws: seq<string>)
    requires AllWord(w, isWord)
    requires WellSplit(ws, isWord) && Concat(ws) == w
    ensures ws == if w == [] then [] else [w]
  {
    if ws != [] {
      var w0 := ws[0];
      assert Concat(ws) == w0 + Concat(ws[1..]);
      assert forall k :: 0 <= k < |w0| ==> w0[k] == w[k];
      assert !isWord(w0[|w0| - 1]) || |ws| == 1;
      if |ws| > 1 {
        assert false;
      }
      assert ws == [w0];
      assert Concat(ws[1..]) == "";
      assert w0 == w;
    }
  }

  /** A rune that is neither letter nor number ends the first word. */
  lemma SplitCut(s: string, isWord: char -> bool, w: string, ws: seq<string>)
    requires AllWord(w, isWord) && s != [] && !isWord(s[0])
    requires WellSplit(ws, isWord) && Concat(ws) == w + s
    ensures ws != [] && ws[0] == w + [s[0]]
    ensures Concat(ws[1..]) == s[1..] && WellSplit(ws[1..], isWord)
  {
    var c := s[0];
    var w2 := w + [c];
    assert w2 + s[1..] == w + s;
    assert ws != [] by {
      if ws == [] {
        assert false;
      }
    }
    var w0 := ws[0];
    var tail := ws[1..];
    assert Concat(ws) == w0 + Concat(tail);
    var L := |w0|;
    assert forall k :: 0 <= k < L ==> w0[k] == (w + s)[k];
    assert forall k :: 0 <= k < |w| ==> (w + s)[k] == w[k];
    assert (w + s)[|w|] == c;
    assert forall k :: 0 <= k < L - 1 ==> isWord(w0[k]) by {
      assert AllWord(w0[..L - 1], isWord);
      forall k | 0 <= k < L - 1 ensures isWord(w0[k]) {
        assert w0[..L - 1][k] == w0[k];
      }
    }
    assert |ws| == 1 ==> tail == [] && Concat(tail) == "";
    if L <= |w| {
      assert false;
    } else if L > |w| + 1 {
      assert false;
    }
    assert w0 == (w0 + Concat(tail))[..L] == (w + s)[..L] == w2;
    assert Concat(tail) == s[1..] by {
      assert w2 + Concat(tail) == w2 + s[1..];
    }
    assert WellSplit(tail, isWord) by {
      forall k | 0 <= k < |tail|
        ensures |tail[k]| > 0 && AllWord(tail[k][..|tail[k]| - 1], isWord)
        ensures k < |tail| - 1 ==> !isWord(tail[k][|tail[k]| - 1])
      {
        assert tail[k] == ws[k + 1];
      }
    }
  }

  /** The bound DiffLine puts on the size of the score table. */
  const MaxCells: int := 100000000

  /** DiffLine: split both lines into words and diff the words exactly; nil
      (None) when the table would exceed MaxCells cells. Otherwise the word
      columns concatenate back to the two lines. */
  function DiffLine(a: string, b: string, isWord: char -> bool): (r: Option<DiffSolution>)
    ensures r.None? <==> |SplitLine(a, isWord)| * |SplitLine(b, isWord)| > MaxCells
    ensures r.Some? ==> Lefts(r.value) == SplitLine(a, isWord) && Concat(Lefts(r.value)) == a
    ensures r.Some? ==> Rights(r.value) == SplitLine(b, isWord) && Concat(Rights(r.value)) == b
    ensures r.Some? ==> forall k :: 0 <= k < |r.value| ==> r.value[k].src == Both ==> r.value[k].left == r.value[k].right
  {
    var aw := SplitLine(a, isWord);
    var bw := SplitLine(b, isWord);
    if |aw| * |bw| > MaxCells then None
    else
      WordsNotBlank(a, isWord);
      WordsNotBlank(b, isWord);
      SolveExactly(aw, bw, Untrimmed);
      Some(Solve(aw, bw, false, Untrimmed))
  }

  /** DiffLine's differ does not trim: the function is never applied. */
  function Untrimmed(x: string): string
  {
    x
  }

  /** No word is empty, so the words of a line are never the single empty
      string that Solve treats as an empty file. */
  lemma WordsNotBlank(s: string, isWord: char -> bool)
    ensures SplitLine(s, isWord) != [""]
  {
    var ws := SplitLine(s, isWord);
    assert ws != [] ==> |ws[0]| > 0;
  }

  /** With whitespace not ignored, and neither side a single empty line, the
      columns are the two sequences and every "=" line pairs equal words. */
  lemma SolveExactly(a: seq<string>, b: seq<string>, trim: string -> string)
    requires a != [""] && b != [""]
    ensures var r := Solve(a, b, false, trim);
      && Lefts(r) == a && Rights(r) == b
      && forall k :: 0 <= k < |r| ==> r[k].src == Both ==> r[k].left == r[k].right
  {
    var r := Solve(a, b, false, trim);
    forall k | 0 <= k < |r| && r[k].src == Both ensures r[k].left == r[k].right {
      assert WellTagged(LineEqOf(false, trim), r[k]);
      assert IsLineEqual(false, trim, r[k].left, r[k].right);
    }
  }
}
