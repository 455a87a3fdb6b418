/** lib/solution.go: the three-column diff solution, the functions that append
    to it, and the PostProcess pass that slides pure addition or deletion runs
    forward past equal lines. */
module Solution {
  import opened Seqs

  /** LineSource: "" (Unknown), "<" (FromA), ">" (FromB), "=" (Both), "~" (Edit). */
  datatype Source = Unknown | FromA | FromB | Both | Edit

  /** One row [left, right, source] of DiffSolution.Lines. */
  datatype Line = Line(left: string, right: string, src: Source)

  type DiffSolution = seq<Line>

  /** The left file as a solution records it: the left text of every line
      that is not an addition on the right. */
  function Lefts(d: DiffSolution): seq<string>
  {
    if d == [] then [] else (if d[0].src == FromB then [] else [d[0].left]) + Lefts(d[1..])
  }

  /** The right file as a solution records it: the right text of every line
      that is not a deletion on the left. */
  function Rights(d: DiffSolution): seq<string>
  {
    if d == [] then [] else (if d[0].src == FromA then [] else [d[0].right]) + Rights(d[1..])
  }

  lemma ColumnsAppend(d: DiffSolution, e: DiffSolution)
    ensures Lefts(d + e) == Lefts(d) + Lefts(e)
    ensures Rights(d + e) == Rights(d) + Rights(e)
  {
    LeftsAppend(d, e);
    RightsAppend(d, e);
  }

  lemma {:induction false} LeftsAppend(d: DiffSolution, e: DiffSolution)
    ensures Lefts(d + e) == Lefts(d) + Lefts(e)
  {
    if d == [] {
      AppendEmpty(e);
    } else {
      var x := d + e;
      AppendFront(d, e);
      LeftsAppend(d[1..], e);
      var h := if d[0].src == FromB then [] else [d[0].left];
      assert Lefts(x) == h + Lefts(x[1..]);
      assert Lefts(d) == h + Lefts(d[1..]);
      AppendAssoc(h, Lefts(d[1..]), Lefts(e));
    }
  }

  lemma {:induction false} RightsAppend(d: DiffSolution, e: DiffSolution)
    ensures Rights(d + e) == Rights(d) + Rights(e)
  {
    if d == [] {
      AppendEmpty(e);
    } else {
      var x := d + e;
      AppendFront(d, e);
      RightsAppend(d[1..], e);
      var h := if d[0].src == FromA then [] else [d[0].right];
      assert Rights(x) == h + Rights(x[1..]);
      assert Rights(d) == h + Rights(d[1..]);
      AppendAssoc(h, Rights(d[1..]), Rights(e));
    }
  }

  /** addLine: one more row, everything before it unchanged. */
  function AddLine(d: DiffSolution, a: string, b: string, l: Source): (r: DiffSolution)
    ensures |r| == |d| + 1 && r[..|d|] == d && r[|d|] == Line(a, b, l)
    ensures l != FromB ==> Lefts(r) == Lefts(d) + [a]
    ensures l == FromB ==> Lefts(r) == Lefts(d)
    ensures l != FromA ==> Rights(r) == Rights(d) + [b]
    ensures l == FromA ==> Rights(r) == Rights(d)
  {
    ColumnsAppend(d, [Line(a, b, l)]);
    d + [Line(a, b, l)]
  }

  /** addLineA: a deletion, which extends the left file only. */
  function AddLineA(d: DiffSolution, a: string): (r: DiffSolution)
    ensures |r| == |d| + 1 && r[..|d|] == d && r[|d|] == Line(a, "", FromA)
    ensures Lefts(r) == Lefts(d) + [a] && Rights(r) == Rights(d)
  {
    AddLine(d, a, "", FromA)
  }

  /** addLineB: an addition, which extends the right file only. */
  function AddLineB(d: DiffSolution, b: string): (r: DiffSolution)
    ensures |r| == |d| + 1 && r[..|d|] == d && r[|d|] == Line("", b, FromB)
    ensures Lefts(r) == Lefts(d) && Rights(r) == Rights(d) + [b]
  {
    AddLine(d, "", b, FromB)
  }

  /** addSolution: e's rows after d's, in order. */
  function AddSolution(d: DiffSolution, e: DiffSolution): (r: DiffSolution)
    ensures |r| == |d| + |e| && r[..|d|] == d && r[|d|..] == e
    ensures Lefts(r) == Lefts(d) + Lefts(e) && Rights(r) == Rights(d) + Rights(e)
  {
    ColumnsAppend(d, e);
    d + e
  }

  // ---------------------------------------------------------------------------
  // PostProcess

  /** Only additions and deletions are ever moved. */
  predicate Movable(t: Source)
  {
    t == FromA || t == FromB
  }

  /** The guard of PostProcess's inner loop: the line at p2 is an equal line
      and it repeats, in the column the run lives in, the line at p1. */
  predicate CanSwap(lines: DiffSolution, t: Source, p1: nat, p2: nat)
    requires p1 < |lines| && p2 < |lines|
  {
    && ((t == FromA && lines[p1].left == lines[p2].left)
        || (t == FromB && lines[p1].right == lines[p2].right))
    && lines[p2].src == Both
  }

  function Swap(s: DiffSolution, i: nat, j: nat): (r: DiffSolution)
    requires i < |s| && j < |s|
    ensures |r| == |s| && r[i] == s[j] && r[j] == s[i]
    ensures forall k :: 0 <= k < |s| && k != i && k != j ==> r[k] == s[k]
  {
    s[i := s[j]][j := s[i]]
  }

  lemma SwapPermutes(s: DiffSolution, i: nat, j: nat)
    requires i < |s| && j < |s|
    ensures multiset(Swap(s, i, j)) == multiset(s)
  {
  }

  /** Every line in [lo, hi) has source t. */
  predicate RunOf(lines: DiffSolution, t: Source, lo: nat, hi: nat)
    requires lo <= hi <= |lines|
  {
    forall k :: lo <= k < hi ==> lines[k].src == t
  }

  /** The inner loop of PostProcess: swap the lines at p1 and p2 and advance
      both, for as long as the guard holds and p2 stays inside the solution. */
  function ShiftRegion(lines: DiffSolution, t: Source, p1: nat, p2: nat): (r: DiffSolution)
    requires p1 < p2 < |lines|
    ensures |r| == |lines|
    ensures r == lines || CanSwap(lines, t, p1, p2)
    ensures forall k :: 0 <= k < p1 ==> r[k] == lines[k]
    decreases |lines| - p2
  {
    if CanSwap(lines, t, p1, p2) then
      var s := Swap(lines, p1, p2);
      if p2 + 1 >= |lines| then s else ShiftRegion(s, t, p1 + 1, p2 + 1)
    else
      lines
  }

  lemma {:induction false} RunColumns(run: DiffSolution, t: Source)
    requires Movable(t) && forall k :: 0 <= k < |run| ==> run[k].src == t
    ensures t == FromA ==> Rights(run) == []
    ensures t == FromB ==> Lefts(run) == []
  {
    if run != [] {
      RunColumns(run[1..], t);
    }
  }

  lemma Split5(s: DiffSolution, p1: nat, p2: nat)
    requires p1 < p2 < |s|
    ensures s == s[..p1] + [s[p1]] + s[p1 + 1..p2] + [s[p2]] + s[p2 + 1..]
  {
  }

  lemma ColumnsOne(x: Line)
    ensures Lefts([x]) == if x.src == FromB then [] else [x.left]
    ensures Rights([x]) == if x.src == FromA then [] else [x.right]
  {
    assert [x][1..] == [];
  }

  lemma ColumnsOfFive(pre: DiffSolution, x: Line, mid: DiffSolution, y: Line, post: DiffSolution)
    ensures Lefts(pre + [x] + mid + [y] + post) == Lefts(pre) + Lefts([x]) + Lefts(mid) + Lefts([y]) + Lefts(post)
    ensures Rights(pre + [x] + mid + [y] + post) == Rights(pre) + Rights([x]) + Rights(mid) + Rights([y]) + Rights(post)
  {
    ColumnsAppend(pre + [x] + mid + [y], post);
    ColumnsAppend(pre + [x] + mid, [y]);
    ColumnsAppend(pre + [x], mid);
    ColumnsAppend(pre, [x]);
  }

  /** Exchanging a run line x with an equal line y that repeats its column,
      across a stretch mid of the same run, changes neither column. */
  lemma ExchangeKeepsColumns(pre: DiffSolution, x: Line, mid: DiffSolution, y: Line, post: DiffSolution, t: Source)
    requires Movable(t) && x.src == t && y.src == Both
    requires t == FromA ==> x.left == y.left
    requires t == FromB ==> x.right == y.right
    requires forall k :: 0 <= k < |mid| ==> mid[k].src == t
    ensures Lefts(pre + [y] + mid + [x] + post) == Lefts(pre + [x] + mid + [y] + post)
    ensures Rights(pre + [y] + mid + [x] + post) == Rights(pre + [x] + mid + [y] + post)
  {
    RunColumns(mid, t);
    ColumnsOfFive(pre, x, mid, y, post);
    ColumnsOfFive(pre, y, mid, x, post);
    ColumnsOne(x);
    ColumnsOne(y);
    if t == FromA {
      assert Lefts([x]) == Lefts([y]);
      SwapAroundEmpty(Rights(pre), Rights([x]), Rights(mid), Rights([y]), Rights(post));
    } else {
      assert Rights([x]) == Rights([y]);
      SwapAroundEmpty(Lefts(pre), Lefts([x]), Lefts(mid), Lefts([y]), Lefts(post));
    }
  }

  /** One swap of PostProcess's inner loop, inside a run, changes neither column. */
  lemma SwapKeepsColumns(lines: DiffSolution, t: Source, p1: nat, p2: nat)
    requires p1 < p2 < |lines| && Movable(t) && CanSwap(lines, t, p1, p2)
    requires RunOf(lines, t, p1, p2)
    ensures Lefts(Swap(lines, p1, p2)) == Lefts(lines)
    ensures Rights(Swap(lines, p1, p2)) == Rights(lines)
  {
    var s := Swap(lines, p1, p2);
    var pre, x, mid, y, post := lines[..p1], lines[p1], lines[p1 + 1..p2], lines[p2], lines[p2 + 1..];
    Split5(lines, p1, p2);
    Split5(s, p1, p2);
    assert s[..p1] == pre;
    assert s[p1 + 1..p2] == mid;
    assert s[p2 + 1..] == post;
    assert s == pre + [y] + mid + [x] + post;
    assert forall k :: 0 <= k < |mid| ==> mid[k].src == t by {
      forall k | 0 <= k < |mid| ensures mid[k].src == t {
        assert mid[k] == lines[p1 + 1 + k];
      }
    }
    ExchangeKeepsColumns(pre, x, mid, y, post, t);
  }

  /** Sliding a pure run forward leaves both recorded files unchanged. */
  lemma {:induction false} ShiftRegionKeepsColumns(lines: DiffSolution, t: Source, p1: nat, p2: nat)
    requires p1 < p2 < |lines| && Movable(t) && RunOf(lines, t, p1, p2)
    ensures Lefts(ShiftRegion(lines, t, p1, p2)) == Lefts(lines)
    ensures Rights(ShiftRegion(lines, t, p1, p2)) == Rights(lines)
    decreases |lines| - p2, 1
  {
    if CanSwap(lines, t, p1, p2) {
      if p2 + 1 < |lines| {
        ShiftStepKeepsColumns(lines, t, p1, p2);
      } else {
        SwapKeepsColumns(lines, t, p1, p2);
        ShiftRegionSwaps(lines, t, p1, p2);
      }
    }
  }

  /** A swap followed by the rest of the slide keeps both columns. */
  lemma ShiftStepKeepsColumns(lines: DiffSolution, t: Source, p1: nat, p2: nat)
    requires p1 < p2 < |lines| && Movable(t) && RunOf(lines, t, p1, p2)
    requires CanSwap(lines, t, p1, p2) && p2 + 1 < |lines|
    ensures Lefts(ShiftRegion(lines, t, p1, p2)) == Lefts(lines)
    ensures Rights(ShiftRegion(lines, t, p1, p2)) == Rights(lines)
    decreases |lines| - p2, 0
  {
    var s := Swap(lines, p1, p2);
    SwapKeepsColumns(lines, t, p1, p2);
    SwapMovesRun(lines, t, p1, p2);
    ShiftRegionKeepsColumns(s, t, p1 + 1, p2 + 1);
    ShiftRegionSwaps(lines, t, p1, p2);
  }

  /** After a swap the run sits one row further on. */
  lemma SwapMovesRun(lines: DiffSolution, t: Source, p1: nat, p2: nat)
    requires p1 < p2 < |lines| && CanSwap(lines, t, p1, p2) && p2 + 1 < |lines|
    requires RunOf(lines, t, p1, p2)
    ensures RunOf(Swap(lines, p1, p2), t, p1 + 1, p2 + 1)
  {
    var s := Swap(lines, p1, p2);
    forall k | p1 + 1 <= k < p2 + 1 ensures s[k].src == t {
      if k == p2 {
        assert s[k] == lines[p1];
      } else {
        assert s[k] == lines[k];
      }
    }
  }

  /** The variables of PostProcess's outer loop. */
  datatype Scan = Scan(lines: DiffSolution, lastStart: int, lastChange: Source, lastLine: Source)

  /** What holds when the outer loop reaches index i: a recorded addition or
      deletion run is the last line type seen, and it covers [lastStart, i). */
  predicate ScanInv(st: Scan, i: nat)
  {
    && i <= |st.lines|
    && (Movable(st.lastChange) ==>
          && 0 <= st.lastStart < i
          && st.lastLine == st.lastChange
          && RunOf(st.lines, st.lastChange, st.lastStart, i))
  }

  /** One iteration of the outer loop at index i. */
  function Visit(st: Scan, i: nat): (r: Scan)
    requires i < |st.lines| && ScanInv(st, i)
    ensures |r.lines| == |st.lines|
    ensures ScanInv(r, i + 1)
    ensures r.lastLine == st.lines[i].src
    ensures r.lines != st.lines ==>
              st.lines[i].src == Both && st.lastLine != Both && Movable(st.lastChange)
  {
    var cur := st.lines[i].src;
    if cur == Both && cur != st.lastLine then
      if !Movable(st.lastChange) then
        st.(lastLine := cur)
      else
        Scan(ShiftRegion(st.lines, st.lastChange, st.lastStart, i), i, cur, cur)
    else if st.lastLine != cur then
      Scan(st.lines, i, cur, cur)
    else
      st
  }

  function Scanning(st: Scan, i: nat): (r: DiffSolution)
    requires ScanInv(st, i)
    ensures |r| == |st.lines|
    decreases |st.lines| - i
  {
    if i == |st.lines| then st.lines else Scanning(Visit(st, i), i + 1)
  }

  /** PostProcess: slides runs forward; the solution keeps its length. */
  function PostProcess(d: DiffSolution): (r: DiffSolution)
    ensures |r| == |d|
  {
    Scanning(Scan(d, -1, Unknown, Both), 0)
  }

  /** The swap loop only exchanges lines: its result is a permutation. */
  lemma ShiftRegionPermutes(lines: DiffSolution, t: Source, p1: nat, p2: nat)
    requires p1 < p2 < |lines|
    ensures multiset(ShiftRegion(lines, t, p1, p2)) == multiset(lines)
  {
    ShiftRegionIsSwapRun(lines, t, p1, p2);
    SwapRunPermutes(lines, p1, p2, Steps(lines, t, p1, p2));
  }

  /** How many swaps the loop makes. */
  function Steps(lines: DiffSolution, t: Source, p1: nat, p2: nat): (n: nat)
    requires p1 < p2 < |lines|
    ensures p2 + n <= |lines|
    decreases |lines| - p2
  {
    if !CanSwap(lines, t, p1, p2) then 0
    else if p2 + 1 >= |lines| then 1
    else 1 + Steps(Swap(lines, p1, p2), t, p1 + 1, p2 + 1)
  }

  /** The loop is Steps successive swaps of neighbouring pairs. */
  lemma {:induction false} ShiftRegionIsSwapRun(lines: DiffSolution, t: Source, p1: nat, p2: nat)
    requires p1 < p2 < |lines|
    ensures ShiftRegion(lines, t, p1, p2) == SwapRun(lines, p1, p2, Steps(lines, t, p1, p2))
    decreases |lines| - p2
  {
    if CanSwap(lines, t, p1, p2) {
      var s := Swap(lines, p1, p2);
      assert s == SwapAt(lines, p1, p2);
      if p2 + 1 < |lines| {
        ShiftRegionIsSwapRun(s, t, p1 + 1, p2 + 1);
      }
    }
  }

  /** One step of the swap loop. */
  lemma ShiftRegionSwaps(lines: DiffSolution, t: Source, p1: nat, p2: nat)
    requires p1 < p2 < |lines| && CanSwap(lines, t, p1, p2)
    ensures p2 + 1 < |lines| ==> ShiftRegion(lines, t, p1, p2) == ShiftRegion(Swap(lines, p1, p2), t, p1 + 1, p2 + 1)
    ensures p2 + 1 >= |lines| ==> ShiftRegion(lines, t, p1, p2) == Swap(lines, p1, p2)
  {
  }

  lemma {:induction false} ScanningPermutes(st: Scan, i: nat)
    requires ScanInv(st, i)
    ensures multiset(Scanning(st, i)) == multiset(st.lines)
    decreases |st.lines| - i
  {
    if i < |st.lines| {
      var next := Visit(st, i);
      VisitPermutes(st, i);
      ScanningPermutes(next, i + 1);
      assert Scanning(st, i) == Scanning(next, i + 1);
      PermTrans(Scanning(st, i), next.lines, st.lines);
    }
  }

  lemma VisitPermutes(st: Scan, i: nat)
    requires i < |st.lines| && ScanInv(st, i)
    ensures multiset(Visit(st, i).lines) == multiset(st.lines)
  {
    var cur := st.lines[i].src;
    if cur == Both && cur != st.lastLine && Movable(st.lastChange) {
      ShiftRegionPermutes(st.lines, st.lastChange, st.lastStart, i);
    }
  }

  /** PostProcess only swaps lines: the result is a permutation of the input. */
  lemma PostProcessPermutes(d: DiffSolution)
    ensures multiset(PostProcess(d)) == multiset(d)
  {
    ScanningPermutes(Scan(d, -1, Unknown, Both), 0);
  }

  lemma {:induction false} ScanningKeepsColumns(st: Scan, i: nat)
    requires ScanInv(st, i)
    ensures Lefts(Scanning(st, i)) == Lefts(st.lines)
    ensures Rights(Scanning(st, i)) == Rights(st.lines)
    decreases |st.lines| - i
  {
    if i < |st.lines| {
      var next := Visit(st, i);
      VisitKeepsColumns(st, i);
      ScanningKeepsColumns(next, i + 1);
      assert Scanning(st, i) == Scanning(next, i + 1);
    }
  }

  /** One iteration of the outer loop changes neither column. */
  lemma VisitKeepsColumns(st: Scan, i: nat)
    requires i < |st.lines| && ScanInv(st, i)
    ensures Lefts(Visit(st, i).lines) == Lefts(st.lines)
    ensures Rights(Visit(st, i).lines) == Rights(st.lines)
  {
    var cur := st.lines[i].src;
    if cur == Both && cur != st.lastLine && Movable(st.lastChange) {
      ShiftRegionKeepsColumns(st.lines, st.lastChange, st.lastStart, i);
    }
  }

  /** PostProcess does not change what the solution says about either file:
      the left column and the right column read the same before and after. */
  lemma PostProcessKeepsColumns(d: DiffSolution)
    ensures Lefts(PostProcess(d)) == Lefts(d)
    ensures Rights(PostProcess(d)) == Rights(d)
  {
    ScanningKeepsColumns(Scan(d, -1, Unknown, Both), 0);
  }

  lemma {:induction false} ScanningWithoutRuns(st: Scan, i: nat)
    requires ScanInv(st, i) && !Movable(st.lastChange)
    requires forall k :: i <= k < |st.lines| ==> !Movable(st.lines[k].src)
    ensures Scanning(st, i) == st.lines
    decreases |st.lines| - i
  {
    if i < |st.lines| {
      ScanningWithoutRuns(Visit(st, i), i + 1);
    }
  }

  /** A solution without additions or deletions (equal and edited lines only)
      is never rearranged. */
  lemma PostProcessKeepsEditsInPlace(d: DiffSolution)
    requires forall k :: 0 <= k < |d| ==> !Movable(d[k].src)
    ensures PostProcess(d) == d
  {
    ScanningWithoutRuns(Scan(d, -1, Unknown, Both), 0);
  }

  /** y keeps every edited ("~") line of x at its index. */
  predicate EditsKept(x: DiffSolution, y: DiffSolution)
  {
    |x| == |y| && forall k :: 0 <= k < |x| && x[k].src == Edit ==> y[k] == x[k]
  }

  lemma EditsKeptTrans(x: DiffSolution, y: DiffSolution, z: DiffSolution)
    requires EditsKept(x, y) && EditsKept(y, z)
    ensures EditsKept(x, z)
  {
    forall k | 0 <= k < |x| && x[k].src == Edit ensures z[k] == x[k] {
      assert y[k] == x[k];
    }
  }

  /** A swap inside a run exchanges a run line with an equal line, neither
      of them edited. */
  lemma SwapKeepsEdits(lines: DiffSolution, t: Source, p1: nat, p2: nat)
    requires p1 < p2 < |lines| && Movable(t) && CanSwap(lines, t, p1, p2)
    requires RunOf(lines, t, p1, p2)
    ensures EditsKept(lines, Swap(lines, p1, p2))
  {
    assert lines[p1].src == t;
  }

  /** Sliding a pure run forward never moves an edited line. */
  lemma {:induction false} ShiftRegionKeepsEdits(lines: DiffSolution, t: Source, p1: nat, p2: nat)
    requires p1 < p2 < |lines| && Movable(t) && RunOf(lines, t, p1, p2)
    ensures EditsKept(lines, ShiftRegion(lines, t, p1, p2))
    decreases |lines| - p2
  {
    if CanSwap(lines, t, p1, p2) {
      var s := Swap(lines, p1, p2);
      SwapKeepsEdits(lines, t, p1, p2);
      ShiftRegionSwaps(lines, t, p1, p2);
      if p2 + 1 < |lines| {
        SwapMovesRun(lines, t, p1, p2);
        ShiftRegionKeepsEdits(s, t, p1 + 1, p2 + 1);
        EditsKeptTrans(lines, s, ShiftRegion(s, t, p1 + 1, p2 + 1));
      }
    }
  }

  lemma VisitKeepsEdits(st: Scan, i: nat)
    requires i < |st.lines| && ScanInv(st, i)
    ensures EditsKept(st.lines, Visit(st, i).lines)
  {
    var cur := st.lines[i].src;
    if cur == Both && cur != st.lastLine && Movable(st.lastChange) {
      ShiftRegionKeepsEdits(st.lines, st.lastChange, st.lastStart, i);
    }
  }

  lemma {:induction false} ScanningKeepsEdits(st: Scan, i: nat)
    requires ScanInv(st, i)
    ensures EditsKept(st.lines, Scanning(st, i))
    decreases |st.lines| - i
  {
    if i < |st.lines| {
      var next := Visit(st, i);
      VisitKeepsEdits(st, i);
      ScanningKeepsEdits(next, i + 1);
      assert Scanning(st, i) == Scanning(next, i + 1);
      EditsKeptTrans(st.lines, next.lines, Scanning(next, i + 1));
    }
  }

  /** An edited line is never moved: whatever surrounds it, every "~" line of
      the solution is at the same index after PostProcess. */
  lemma PostProcessKeepsEdits(d: DiffSolution)
    ensures forall k :: 0 <= k < |d| && d[k].src == Edit ==> PostProcess(d)[k] == d[k]
  {
    ScanningKeepsEdits(Scan(d, -1, Unknown, Both), 0);
  }

  /** The inner loop of PostProcess as written: swap and advance while the
      guard holds, stopping when p2 runs off the end. */
  method ShiftRegionInPlace(lines0: DiffSolution, t: Source, start: nat, i: nat) returns (lines: DiffSolution)
    requires start < i < |lines0|
    ensures lines == ShiftRegion(lines0, t, start, i)
  {
    lines := lines0;
    var p1, p2 := start, i;
    while CanSwap(lines, t, p1, p2)
      invariant 0 <= p1 < p2 < |lines| == |lines0|
      invariant ShiftRegion(lines, t, p1, p2) == ShiftRegion(lines0, t, start, i)
      decreases |lines| - p2
    {
      lines := Swap(lines, p1, p2);
      p1, p2 := p1 + 1, p2 + 1;
      if p2 >= |lines| {
        break;
      }
    }
  }

  /** The PostProcess loop as written, swapping lines of the solution in place;
      it computes PostProcess. */
  method PostProcessInPlace(d: DiffSolution) returns (lines: DiffSolution)
    ensures lines == PostProcess(d)
  {
    lines := d;
    var lastStart, lastChange, lastLine := -1, Unknown, Both;
    var i := 0;
    while i < |lines|
      invariant |lines| == |d| && ScanInv(Scan(lines, lastStart, lastChange, lastLine), i)
      invariant Scanning(Scan(lines, lastStart, lastChange, lastLine), i) == PostProcess(d)
      decreases |lines| - i
    {
      ghost var before := Scan(lines, lastStart, lastChange, lastLine);
      var cur := lines[i].src;
      if cur == Both && cur != lastLine && !Movable(lastChange) {
        lastLine := cur;
      } else {
        if cur == Both && cur != lastLine {
          lines := ShiftRegionInPlace(lines, lastChange, lastStart, i);
        }
        if lastLine != cur {
          lastStart, lastChange := i, cur;
        }
        lastLine := cur;
      }
      assert Scan(lines, lastStart, lastChange, lastLine) == Visit(before, i);
      i := i + 1;
    }
  }
}

/** The expected outputs of solution_test.go, stated about the model. */
module SolutionExamples {
  import opened Solution

  function Eq(s: string): Line { Line(s, s, Both) }
  function Del(s: string): Line { Line(s, "", FromA) }
  function Add(s: string): Line { Line("", s, FromB) }

  function AddRun(): DiffSolution
  {
    [Eq("A"), Add("B"), Add("C"), Add("D"), Add("E"), Eq("B"), Eq("C"), Eq("D")]
  }

  function AddRunShifted(): DiffSolution
  {
    [Eq("A"), Eq("B"), Eq("C"), Eq("D"), Add("E"), Add("B"), Add("C"), Add("D")]
  }

  /** The three swaps that move B C D of the run past the equal lines. */
  lemma AddRunShift()
    ensures ShiftRegion(AddRun(), FromB, 1, 5) == AddRunShifted()
  {
    var d := AddRun();
    var s1 := Swap(d, 1, 5);
    assert s1 == [Eq("A"), Eq("B"), Add("C"), Add("D"), Add("E"), Add("B"), Eq("C"), Eq("D")];
    var s2 := Swap(s1, 2, 6);
    assert s2 == [Eq("A"), Eq("B"), Eq("C"), Add("D"), Add("E"), Add("B"), Add("C"), Eq("D")];
    var s3 := Swap(s2, 3, 7);
    assert s3 == AddRunShifted();
    assert CanSwap(s2, FromB, 3, 7);
    assert ShiftRegion(s2, FromB, 3, 7) == s3;
    assert CanSwap(s1, FromB, 2, 6);
    assert ShiftRegion(s1, FromB, 2, 6) == s3;
    assert CanSwap(d, FromB, 1, 5);
  }

  /** An addition run B C D E before B C D slides forward to follow A B C D. */
  lemma PostProcessShiftsAddition()
    ensures PostProcess([Eq("A"), Add("B"), Add("C"), Add("D"), Add("E"), Eq("B"), Eq("C"), Eq("D")])
         == [Eq("A"), Eq("B"), Eq("C"), Eq("D"), Add("E"), Add("B"), Add("C"), Add("D")]
  {
    var d, r := AddRun(), AddRunShifted();
    AddRunShift();
    var st0 := Scan(d, -1, Unknown, Both);
    assert Visit(st0, 0) == st0;
    var st1 := Scan(d, 1, FromB, FromB);
    assert Visit(st0, 1) == st1;
    assert Visit(st1, 2) == st1;
    assert Visit(st1, 3) == st1;
    assert Visit(st1, 4) == st1;
    var st5 := Scan(r, 5, Both, Both);
    assert Visit(st1, 5) == st5;
    var st6 := Scan(r, 6, FromB, FromB);
    assert Visit(st5, 6) == st6;
    assert Visit(st6, 7) == st6;
    assert Scanning(st6, 8) == r;
    assert Scanning(st6, 7) == r;
    assert Scanning(st5, 6) == r;
    assert Scanning(st1, 5) == r;
    assert Scanning(st1, 4) == r;
    assert Scanning(st1, 3) == r;
    assert Scanning(st1, 2) == r;
    assert Scanning(st0, 1) == r;
    assert Scanning(st0, 0) == r;
  }

  function DelRun(): DiffSolution
  {
    [Eq("A"), Del("B"), Del("C"), Del("D"), Eq("B"), Eq("C"), Eq("D")]
  }

  function DelRunShifted(): DiffSolution
  {
    [Eq("A"), Eq("B"), Eq("C"), Eq("D"), Del("B"), Del("C"), Del("D")]
  }

  /** The three swaps that move the deleted B C D past the equal ones. */
  lemma DelRunShift()
    ensures ShiftRegion(DelRun(), FromA, 1, 4) == DelRunShifted()
  {
    var d := DelRun();
    var s1 := Swap(d, 1, 4);
    assert s1 == [Eq("A"), Eq("B"), Del("C"), Del("D"), Del("B"), Eq("C"), Eq("D")];
    var s2 := Swap(s1, 2, 5);
    assert s2 == [Eq("A"), Eq("B"), Eq("C"), Del("D"), Del("B"), Del("C"), Eq("D")];
    var s3 := Swap(s2, 3, 6);
    assert s3 == DelRunShifted();
    assert CanSwap(s2, FromA, 3, 6);
    assert ShiftRegion(s2, FromA, 3, 6) == s3;
    assert CanSwap(s1, FromA, 2, 5);
    assert ShiftRegion(s1, FromA, 2, 5) == s3;
    assert CanSwap(d, FromA, 1, 4);
  }

  /** A deletion run B C D before B C D slides forward past it. */
  lemma PostProcessShiftsDeletion()
    ensures PostProcess([Eq("A"), Del("B"), Del("C"), Del("D"), Eq("B"), Eq("C"), Eq("D")])
         == [Eq("A"), Eq("B"), Eq("C"), Eq("D"), Del("B"), Del("C"), Del("D")]
  {
    var d, r := DelRun(), DelRunShifted();
    DelRunShift();
    var st0 := Scan(d, -1, Unknown, Both);
    assert Visit(st0, 0) == st0;
    var st1 := Scan(d, 1, FromA, FromA);
    assert Visit(st0, 1) == st1;
    assert Visit(st1, 2) == st1;
    assert Visit(st1, 3) == st1;
    var st4 := Scan(r, 4, Both, Both);
    assert Visit(st1, 4) == st4;
    var st5 := Scan(r, 5, FromA, FromA);
    assert Visit(st4, 5) == st5;
    assert Visit(st5, 6) == st5;
    assert Scanning(st5, 7) == r;
    assert Scanning(st5, 6) == r;
    assert Scanning(st4, 5) == r;
    assert Scanning(st1, 4) == r;
    assert Scanning(st1, 3) == r;
    assert Scanning(st1, 2) == r;
    assert Scanning(st0, 1) == r;
    assert Scanning(st0, 0) == r;
  }

  /** A deletion run that follows an edited line also slides forward. */
  lemma PostProcessShiftsDeletionAfterEdit()
    ensures PostProcess([Line("A", "Q", Edit), Del("B"), Del("C"), Eq("B"), Eq("C")])
         == [Line("A", "Q", Edit), Eq("B"), Eq("C"), Del("B"), Del("C")]
  {
  }
}
