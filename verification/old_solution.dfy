/** delta/solution.go: the earlier PostProcess. It shares the swap loop of
    lib/solution.go but records where a change region starts only when a
    non-"=" line follows an "=" line, so a region keeps the type of its first
    line even when lines of another type follow inside it. */
module OldSolution {
  import opened Solution
  import opened Seqs

  /** The variables of the outer loop: the same four as in the later version. */
  predicate OldScanInv(st: Scan, i: nat)
  {
    && i <= |st.lines|
    && (st.lastLine != Both ==> 0 <= st.lastStart < i)
  }

  /** One iteration of the outer loop at index i. */
  function OldVisit(st: Scan, i: nat): (r: Scan)
    requires i < |st.lines| && OldScanInv(st, i)
    ensures |r.lines| == |st.lines| && OldScanInv(r, i + 1)
    ensures r.lastLine == st.lines[i].src
    ensures (r.lastStart, r.lastChange) != (st.lastStart, st.lastChange) ==>
              st.lastLine == Both && st.lines[i].src != Both && r.lastStart == i && r.lastChange == st.lines[i].src
    ensures r.lines != st.lines ==>
              st.lines[i].src == Both && st.lastLine != Both && Movable(st.lastChange)
  {
    var cur := st.lines[i].src;
    if cur == Both && cur != st.lastLine then
      if !Movable(st.lastChange) then
        st.(lastLine := cur)
      else
        st.(lines := ShiftRegion(st.lines, st.lastChange, st.lastStart, i), lastLine := cur)
    else if st.lastLine == Both && cur != st.lastLine then
      Scan(st.lines, i, cur, cur)
    else
      st.(lastLine := cur)
  }

  function OldScanning(st: Scan, i: nat): (r: DiffSolution)
    requires OldScanInv(st, i)
    ensures |r| == |st.lines|
    decreases |st.lines| - i
  {
    if i == |st.lines| then st.lines else OldScanning(OldVisit(st, i), i + 1)
  }

  /** The earlier PostProcess. */
  function PostProcess(d: DiffSolution): (r: DiffSolution)
    ensures |r| == |d|
  {
    OldScanning(Scan(d, -1, Unknown, Both), 0)
  }

  lemma {:induction false} OldScanningPermutes(st: Scan, i: nat)
    requires OldScanInv(st, i)
    ensures multiset(OldScanning(st, i)) == multiset(st.lines)
    decreases |st.lines| - i
  {
    if i < |st.lines| {
      var next := OldVisit(st, i);
      OldVisitPermutes(st, i);
      OldScanningPermutes(next, i + 1);
      assert OldScanning(st, i) == OldScanning(next, i + 1);
      PermTrans(OldScanning(st, i), next.lines, st.lines);
    }
  }

  lemma OldVisitPermutes(st: Scan, i: nat)
    requires i < |st.lines| && OldScanInv(st, i)
    ensures multiset(OldVisit(st, i).lines) == multiset(st.lines)
  {
    var cur := st.lines[i].src;
    if cur == Both && cur != st.lastLine && Movable(st.lastChange) {
      ShiftRegionPermutes(st.lines, st.lastChange, st.lastStart, i);
    }
  }

  /** The earlier PostProcess also only swaps lines. */
  lemma PostProcessPermutes(d: DiffSolution)
    ensures multiset(PostProcess(d)) == multiset(d)
  {
    OldScanningPermutes(Scan(d, -1, Unknown, Both), 0);
  }

  lemma {:induction false} OldScanningWithoutRuns(st: Scan, i: nat)
    requires OldScanInv(st, i) && !Movable(st.lastChange)
    requires forall k :: i <= k < |st.lines| ==> !Movable(st.lines[k].src)
    ensures OldScanning(st, i) == st.lines
    decreases |st.lines| - i
  {
    if i < |st.lines| {
      OldScanningWithoutRuns(OldVisit(st, i), i + 1);
    }
  }

  /** Without additions or deletions nothing is rearranged. */
  lemma PostProcessKeepsEditsInPlace(d: DiffSolution)
    requires forall k :: 0 <= k < |d| ==> !Movable(d[k].src)
    ensures PostProcess(d) == d
  {
    OldScanningWithoutRuns(Scan(d, -1, Unknown, Both), 0);
  }
}

/** The earlier PostProcess set against the test vectors and the later one. */
module OldSolutionExamples {
  import opened Solution
  import OldSolution
  import opened SolutionExamples

  /** The addition test vector comes out as in the later version. */
  lemma OldShiftsAddition()
    ensures OldSolution.PostProcess([Eq("A"), Add("B"), Add("C"), Add("D"), Add("E"), Eq("B"), Eq("C"), Eq("D")])
         == [Eq("A"), Eq("B"), Eq("C"), Eq("D"), Add("E"), Add("B"), Add("C"), Add("D")]
  {
    var d, r := AddRun(), AddRunShifted();
    AddRunShift();
    var st0 := Scan(d, -1, Unknown, Both);
    assert OldSolution.OldVisit(st0, 0) == st0;
    var st1 := Scan(d, 1, FromB, FromB);
    assert OldSolution.OldVisit(st0, 1) == st1;
    assert OldSolution.OldVisit(st1, 2) == st1;
    assert OldSolution.OldVisit(st1, 3) == st1;
    assert OldSolution.OldVisit(st1, 4) == st1;
    var st5 := Scan(r, 1, FromB, Both);
    assert OldSolution.OldVisit(st1, 5) == st5;
    var st6 := Scan(r, 6, FromB, FromB);
    assert OldSolution.OldVisit(st5, 6) == st6;
    assert OldSolution.OldVisit(st6, 7) == st6;
    assert OldSolution.OldScanning(st6, 8) == r;
    assert OldSolution.OldScanning(st6, 7) == r;
    assert OldSolution.OldScanning(st5, 6) == r;
    assert OldSolution.OldScanning(st1, 5) == r;
    assert OldSolution.OldScanning(st1, 4) == r;
    assert OldSolution.OldScanning(st1, 3) == r;
    assert OldSolution.OldScanning(st1, 2) == r;
    assert OldSolution.OldScanning(st0, 1) == r;
    assert OldSolution.OldScanning(st0, 0) == r;
  }

  /** So does the deletion run that follows an equal line. */
  lemma OldShiftsDeletion()
    ensures OldSolution.PostProcess([Eq("A"), Del("B"), Del("C"), Del("D"), Eq("B"), Eq("C"), Eq("D")])
         == [Eq("A"), Eq("B"), Eq("C"), Eq("D"), Del("B"), Del("C"), Del("D")]
  {
    var d, r := DelRun(), DelRunShifted();
    DelRunShift();
    var st0 := Scan(d, -1, Unknown, Both);
    assert OldSolution.OldVisit(st0, 0) == st0;
    var st1 := Scan(d, 1, FromA, FromA);
    assert OldSolution.OldVisit(st0, 1) == st1;
    assert OldSolution.OldVisit(st1, 2) == st1;
    assert OldSolution.OldVisit(st1, 3) == st1;
    var st4 := Scan(r, 1, FromA, Both);
    assert OldSolution.OldVisit(st1, 4) == st4;
    var st5 := Scan(r, 5, FromA, FromA);
    assert OldSolution.OldVisit(st4, 5) == st5;
    assert OldSolution.OldVisit(st5, 6) == st5;
    assert OldSolution.OldScanning(st5, 7) == r;
    assert OldSolution.OldScanning(st5, 6) == r;
    assert OldSolution.OldScanning(st4, 5) == r;
    assert OldSolution.OldScanning(st1, 4) == r;
    assert OldSolution.OldScanning(st1, 3) == r;
    assert OldSolution.OldScanning(st1, 2) == r;
    assert OldSolution.OldScanning(st0, 1) == r;
    assert OldSolution.OldScanning(st0, 0) == r;
  }

  /** A deletion run right after an edited line belongs to the edit's region,
      which is not moved: this version leaves the third test vector as it is,
      where the later one slides the deletions forward. */
  lemma OldKeepsDeletionAfterEdit()
    ensures OldSolution.PostProcess([Line("A", "Q", Edit), Del("B"), Del("C"), Eq("B"), Eq("C")])
         == [Line("A", "Q", Edit), Del("B"), Del("C"), Eq("B"), Eq("C")]
    ensures Solution.PostProcess([Line("A", "Q", Edit), Del("B"), Del("C"), Eq("B"), Eq("C")])
         != [Line("A", "Q", Edit), Del("B"), Del("C"), Eq("B"), Eq("C")]
  {
    PostProcessShiftsDeletionAfterEdit();
  }

  /** The input on which the two versions part: a deletion directly followed
      by an addition, then an equal line repeating the deleted one. */
  function Mixed(): DiffSolution
  {
    [Eq("a"), Del("x"), Add("y"), Eq("x"), Eq("")]
  }

  /** The earlier version treats the addition as part of the deletion's region
      and swaps it too: afterwards the left column reads a x "" x instead of
      a x x "", and the right column a x "" y instead of a y x "", so the
      solution no longer describes the two files it was computed from. */
  lemma OldScramblesMixedRegion()
    ensures OldSolution.PostProcess(Mixed()) == [Eq("a"), Eq("x"), Eq(""), Del("x"), Add("y")]
    ensures Lefts(Mixed()) == ["a", "x", "x", ""]
    ensures Lefts(OldSolution.PostProcess(Mixed())) == ["a", "x", "", "x"]
    ensures Rights(Mixed()) == ["a", "y", "x", ""]
    ensures Rights(OldSolution.PostProcess(Mixed())) == ["a", "x", "", "y"]
  {
    MixedOldTrace();
    MixedColumns();
    ScrambledColumns();
  }

  /** The swap loop of the earlier version on the mixed region: the deletion
      goes past the repeated "x", then the addition past the empty line. */
  lemma MixedShift()
    ensures ShiftRegion(Mixed(), FromA, 1, 3) == [Eq("a"), Eq("x"), Eq(""), Del("x"), Add("y")]
  {
    var m := Mixed();
    var s1 := Swap(m, 1, 3);
    assert s1 == [Eq("a"), Eq("x"), Add("y"), Del("x"), Eq("")];
    var s2 := Swap(s1, 2, 4);
    assert s2 == [Eq("a"), Eq("x"), Eq(""), Del("x"), Add("y")];
    assert CanSwap(s1, FromA, 2, 4);
    assert ShiftRegion(s1, FromA, 2, 4) == s2;
    assert CanSwap(m, FromA, 1, 3);
  }

  lemma MixedOldTrace()
    ensures OldSolution.PostProcess(Mixed()) == [Eq("a"), Eq("x"), Eq(""), Del("x"), Add("y")]
  {
    var m := Mixed();
    var m2 := [Eq("a"), Eq("x"), Eq(""), Del("x"), Add("y")];
    MixedShift();
    var st0 := Scan(m, -1, Unknown, Both);
    assert OldSolution.OldVisit(st0, 0) == st0;
    var st1 := Scan(m, 1, FromA, FromA);
    assert OldSolution.OldVisit(st0, 1) == st1;
    var st2 := Scan(m, 1, FromA, FromB);
    assert OldSolution.OldVisit(st1, 2) == st2;
    var st3 := Scan(m2, 1, FromA, Both);
    assert OldSolution.OldVisit(st2, 3) == st3;
    var st4 := Scan(m2, 4, FromB, FromB);
    assert OldSolution.OldVisit(st3, 4) == st4;
    assert OldSolution.OldScanning(st4, 5) == m2;
    assert OldSolution.OldScanning(st3, 4) == m2;
    assert OldSolution.OldScanning(st2, 3) == m2;
    assert OldSolution.OldScanning(st1, 2) == m2;
    assert OldSolution.OldScanning(st0, 1) == m2;
    assert OldSolution.OldScanning(st0, 0) == m2;
  }

  lemma MixedColumns()
    ensures Lefts(Mixed()) == ["a", "x", "x", ""]
    ensures Rights(Mixed()) == ["a", "y", "x", ""]
  {
    var m := Mixed();
    assert m[1..] == [Del("x"), Add("y"), Eq("x"), Eq("")];
    assert m[1..][1..] == [Add("y"), Eq("x"), Eq("")];
    assert m[1..][1..][1..] == [Eq("x"), Eq("")];
    assert m[1..][1..][1..][1..] == [Eq("")];
    assert m[1..][1..][1..][1..][1..] == [];
  }

  lemma ScrambledColumns()
    ensures Lefts([Eq("a"), Eq("x"), Eq(""), Del("x"), Add("y")]) == ["a", "x", "", "x"]
    ensures Rights([Eq("a"), Eq("x"), Eq(""), Del("x"), Add("y")]) == ["a", "x", "", "y"]
  {
    var m := [Eq("a"), Eq("x"), Eq(""), Del("x"), Add("y")];
    assert m[1..] == [Eq("x"), Eq(""), Del("x"), Add("y")];
    assert m[1..][1..] == [Eq(""), Del("x"), Add("y")];
    assert m[1..][1..][1..] == [Del("x"), Add("y")];
    assert m[1..][1..][1..][1..] == [Add("y")];
    assert m[1..][1..][1..][1..][1..] == [];
  }

  /** A deletion followed by an edited line, then equal lines repeating both. */
  function EditInRegion(): DiffSolution
  {
    [Eq("a"), Del("x"), Line("y", "z", Edit), Eq("x"), Eq("y")]
  }

  /** The earlier version counts the edited line as part of the deletion's
      region, and the swap loop carries it past the repeated "y". */
  lemma EditInRegionShift()
    ensures ShiftRegion(EditInRegion(), FromA, 1, 3) == [Eq("a"), Eq("x"), Eq("y"), Del("x"), Line("y", "z", Edit)]
  {
    var m := EditInRegion();
    var s1 := Swap(m, 1, 3);
    assert s1 == [Eq("a"), Eq("x"), Line("y", "z", Edit), Del("x"), Eq("y")];
    var s2 := Swap(s1, 2, 4);
    assert s2 == [Eq("a"), Eq("x"), Eq("y"), Del("x"), Line("y", "z", Edit)];
    assert CanSwap(s1, FromA, 2, 4);
    assert ShiftRegion(s1, FromA, 2, 4) == s2;
    assert CanSwap(m, FromA, 1, 3);
  }

  /** So the earlier version moves an edited line, from index 2 to index 4;
      the later version never does (Solution.PostProcessKeepsEdits). */
  lemma OldMovesEdit()
    ensures EditInRegion()[2].src == Edit
    ensures OldSolution.PostProcess(EditInRegion()) == [Eq("a"), Eq("x"), Eq("y"), Del("x"), Line("y", "z", Edit)]
    ensures OldSolution.PostProcess(EditInRegion())[2] != EditInRegion()[2]
  {
    var m := EditInRegion();
    var m2 := [Eq("a"), Eq("x"), Eq("y"), Del("x"), Line("y", "z", Edit)];
    EditInRegionShift();
    var st0 := Scan(m, -1, Unknown, Both);
    assert OldSolution.OldVisit(st0, 0) == st0;
    var st1 := Scan(m, 1, FromA, FromA);
    assert OldSolution.OldVisit(st0, 1) == st1;
    var st2 := Scan(m, 1, FromA, Edit);
    assert OldSolution.OldVisit(st1, 2) == st2;
    var st3 := Scan(m2, 1, FromA, Both);
    assert OldSolution.OldVisit(st2, 3) == st3;
    var st4 := Scan(m2, 4, Edit, Edit);
    assert OldSolution.OldVisit(st3, 4) == st4;
    assert OldSolution.OldScanning(st4, 5) == m2;
    assert OldSolution.OldScanning(st3, 4) == m2;
    assert OldSolution.OldScanning(st2, 3) == m2;
    assert OldSolution.OldScanning(st1, 2) == m2;
    assert OldSolution.OldScanning(st0, 1) == m2;
    assert OldSolution.OldScanning(st0, 0) == m2;
  }

  /** The later version starts a new region at the addition, which it cannot
      move, and so keeps both columns. */
  lemma LaterKeepsMixedRegion()
    ensures Solution.PostProcess(Mixed()) == Mixed()
  {
  }
}
