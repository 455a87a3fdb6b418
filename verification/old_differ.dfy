/** delta/differ.go: the earlier Differ. It splits both texts on newlines,
    copies the longest prefix of lines that are equal after trimming, and
    aligns the rest with the same weights and recurrence as SequenceDiffer,
    but a candidate replaces the best so far only when strictly better, and
    there is no special case for an empty text. */
module OldDiffer {
  import opened Text
  import opened Solution
  import opened Align

  /** Lines compare equal when they are equal after strings.TrimSpace (the
      parameter trim). */
  function TrimEq(trim: string -> string): LineEq
  {
    (x: string, y: string) => trim(x) == trim(y)
  }

  /** Differ.Solve. The columns are exactly A and B, every line is tagged as
      the table tags it ("=" only for lines equal after trimming, "~" only for
      lines that are not), and the shared prefix comes first as "=" lines. */
  function Solve(a: seq<string>, b: seq<string>, trim: string -> string): (r: DiffSolution)
    ensures Lefts(r) == a && Rights(r) == b
    ensures forall k :: 0 <= k < |r| ==> r[k].src != Unknown
    ensures forall k :: 0 <= k < |r| ==> r[k].src == Both ==> trim(r[k].left) == trim(r[k].right)
    ensures forall k :: 0 <= k < |r| ==> r[k].src == Edit ==> trim(r[k].left) != trim(r[k].right)
    ensures var n := PrefixLength(a, b, TrimEq(trim), 0);
      n <= |r| && forall k :: 0 <= k < n ==> r[k] == Line(a[k], b[k], Both)
  {
    var r := PrefixThenTrace(a, b, TrimEq(trim), EarlierWins);
    TaggedByTrim(r, trim);
    r
  }

  /** What a well-tagged line says when lines are compared trimmed. */
  lemma TaggedByTrim(r: DiffSolution, trim: string -> string)
    requires forall k :: 0 <= k < |r| ==> WellTagged(TrimEq(trim), r[k])
    ensures forall k :: 0 <= k < |r| ==> r[k].src != Unknown
    ensures forall k :: 0 <= k < |r| ==> r[k].src == Both ==> trim(r[k].left) == trim(r[k].right)
    ensures forall k :: 0 <= k < |r| ==> r[k].src == Edit ==> trim(r[k].left) != trim(r[k].right)
  {
    forall k | 0 <= k < |r|
      ensures r[k].src != Unknown
      ensures r[k].src == Both ==> trim(r[k].left) == trim(r[k].right)
      ensures r[k].src == Edit ==> trim(r[k].left) != trim(r[k].right)
    {
      assert WellTagged(TrimEq(trim), r[k]);
    }
  }

  /** Diff: joining either column with newlines gives back that text. Unlike
      the later SequenceDiff, an empty text keeps its one empty line. */
  function Diff(a: string, b: string, trim: string -> string): (r: DiffSolution)
    ensures |Lefts(r)| >= 1 && JoinLines(Lefts(r)) == a
    ensures |Rights(r)| >= 1 && JoinLines(Rights(r)) == b
  {
    JoinSplitLines(a);
    JoinSplitLines(b);
    Solve(SplitLines(a), SplitLines(b), trim)
  }
}

/** The two differs on an input where skipping either side scores the same. */
module DifferTies {
  import opened Seqs
  import opened Solution
  import opened Align
  import OldDiffer
  import Sequence

  const P: seq<string> := ["p", "q"]
  const Q: seq<string> := ["q", "p"]

  function Same(s: string): string { s }

  /** A comparison that is plain string equality. */
  ghost predicate Exact(eq: LineEq)
  {
    forall x: string, y: string :: eq(x, y) <==> x == y
  }

  lemma TrimmedSameIsExact()
    ensures Exact(OldDiffer.TrimEq(Same))
    ensures Exact(Sequence.LineEqOf(true, Same))
  {
    forall x: string, y: string ensures OldDiffer.TrimEq(Same)(x, y) <==> x == y {
      assert OldDiffer.TrimEq(Same)(x, y) == (Same(x) == Same(y));
    }
    forall x: string, y: string ensures Sequence.LineEqOf(true, Same)(x, y) <==> x == y {
      assert Sequence.LineEqOf(true, Same)(x, y) == Sequence.IsLineEqual(true, Same, x, y);
    }
  }

  /** Without a shared prefix, Solve is the traceback from the first cell. */
  lemma NoPrefix(a: seq<string>, b: seq<string>, eq: LineEq, tie: TieBreak)
    requires PrefixLength(a, b, eq, 0) == 0
    ensures PrefixThenTrace(a, b, eq, tie) == Emit(a, b, eq, tie, 0, 0)
  {
    assert AddPrefix([], a, b, 0, 0) == [];
  }

  lemma EmitFirst(a: seq<string>, b: seq<string>, eq: LineEq, tie: TieBreak, i: nat, j: nat)
    requires i < |a| && j < |b|
    ensures var st := Step(a, b, eq, tie, i, j);
      Emit(a, b, eq, tie, i, j) == [st.0] + Emit(a, b, eq, tie, st.1, st.2)
  {
  }

  lemma TieScores(eq: LineEq)
    requires Exact(eq)
    ensures Score(P, Q, eq, 1, 1) == -1
    ensures Value(P, Q, eq, 0, 0, SkipA) == 98
    ensures Value(P, Q, eq, 0, 0, SkipB) == 98
    ensures Value(P, Q, eq, 0, 0, Pair) == -2
  {
    assert eq("p", "q") == false && eq("q", "p") == false;
    assert eq("p", "p") && eq("q", "q");
    assert Score(P, Q, eq, 2, 1) == 0;
    assert Score(P, Q, eq, 1, 2) == 0;
    assert Score(P, Q, eq, 2, 2) == 0;
  }

  lemma TieChoices(eq: LineEq)
    requires Exact(eq)
    ensures Choice(P, Q, eq, EarlierWins, 0, 0) == SkipA
    ensures Choice(P, Q, eq, LaterWins, 0, 0) == SkipB
  {
    TieScores(eq);
  }

  lemma PrefixEmpty(eq: LineEq)
    requires Exact(eq)
    ensures PrefixLength(P, Q, eq, 0) == 0
  {
    assert !eq(P[0], Q[0]);
  }

  /** After the earlier differ skips "p", "q" matches "q" and "p" is added. */
  lemma OldTail(eq: LineEq)
    requires Exact(eq)
    ensures Emit(P, Q, eq, EarlierWins, 1, 0) == [Line("q", "q", Both), Line("", "p", FromB)]
  {
    assert eq("q", "q") && !eq("q", "p");
    assert Choice(P, Q, eq, EarlierWins, 1, 0) == Pair by {
      assert Score(P, Q, eq, 2, 0) == 0 && Score(P, Q, eq, 2, 1) == 0;
      assert Score(P, Q, eq, 1, 1) == -1;
    }
    assert Emit(P, Q, eq, EarlierWins, 2, 2) == [];
    assert Emit(P, Q, eq, EarlierWins, 2, 1) == [Line("", "p", FromB)];
  }

  /** After the later differ skips "q", "p" matches "p" and "q" is deleted. */
  lemma NewTail(eq: LineEq)
    requires Exact(eq)
    ensures Emit(P, Q, eq, LaterWins, 0, 1) == [Line("p", "p", Both), Line("q", "", FromA)]
  {
    assert eq("p", "p") && !eq("q", "p");
    assert Choice(P, Q, eq, LaterWins, 0, 1) == Pair by {
      assert Score(P, Q, eq, 0, 2) == 0 && Score(P, Q, eq, 1, 2) == 0;
      assert Score(P, Q, eq, 1, 1) == -1;
    }
    assert Emit(P, Q, eq, LaterWins, 2, 2) == [];
    assert Emit(P, Q, eq, LaterWins, 1, 2) == [Line("q", "", FromA)];
  }

  lemma OldTies()
    ensures OldDiffer.Solve(P, Q, Same) == [Line("p", "", FromA), Line("q", "q", Both), Line("", "p", FromB)]
  {
    var eq := OldDiffer.TrimEq(Same);
    TrimmedSameIsExact();
    PrefixEmpty(eq);
    TieChoices(eq);
    OldTail(eq);
    NoPrefix(P, Q, eq, EarlierWins);
    EmitFirst(P, Q, eq, EarlierWins, 0, 0);
    assert Step(P, Q, eq, EarlierWins, 0, 0) == (Line("p", "", FromA), 1, 0);
    ConsOnto(Line("p", "", FromA), Emit(P, Q, eq, EarlierWins, 1, 0), Line("q", "q", Both), Line("", "p", FromB));
  }

  lemma NewTies()
    ensures Sequence.Solve(P, Q, true, Same) == [Line("", "q", FromB), Line("p", "p", Both), Line("q", "", FromA)]
  {
    var eq := Sequence.LineEqOf(true, Same);
    TrimmedSameIsExact();
    PrefixEmpty(eq);
    TieChoices(eq);
    NewTail(eq);
    assert P != [""] && Q != [""];
    assert Sequence.Solve(P, Q, true, Same) == PrefixThenTrace(P, Q, eq, LaterWins);
    NoPrefix(P, Q, eq, LaterWins);
    EmitFirst(P, Q, eq, LaterWins, 0, 0);
    assert Step(P, Q, eq, LaterWins, 0, 0) == (Line("", "q", FromB), 0, 1);
    ConsOnto(Line("", "q", FromB), Emit(P, Q, eq, LaterWins, 0, 1), Line("p", "p", Both), Line("q", "", FromA));
  }

  /** Diffing p q against q p: deleting p first and adding q first both score
      98. Strict comparison keeps the deletion, so the earlier differ prints
      "<p =q >p"; the later differ's `>=` lets the addition win and prints
      ">q =p <q". */
  lemma TiesGoDifferentWays()
    ensures OldDiffer.Solve(P, Q, Same) == [Line("p", "", FromA), Line("q", "q", Both), Line("", "p", FromB)]
    ensures Sequence.Solve(P, Q, true, Same) == [Line("", "q", FromB), Line("p", "p", Both), Line("q", "", FromA)]
  {
    OldTies();
    NewTies();
  }
}
