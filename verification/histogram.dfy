/** lib/histogram.go: HistogramDiffer. It finds a matching region of
    low-occurrence lines, recurses on the areas before and after it, diffs the
    gaps between regions with SequenceDiffer and copies the regions as "="
    lines. Lines are compared with surrounding whitespace trimmed
    (strings.TrimSpace is the parameter trim). */
module Histogram {
  import opened Wrappers
  import opened Text
  import opened Solution
  import Align
  import Sequence
  import opened Seqs

  /** matchRegion: [aStart, aEnd) of A matched with [bStart, bEnd) of B. */
  datatype Region = Region(aStart: int, aEnd: int, bStart: int, bEnd: int, matchScore: int)

  /** The area of A and B a call works on: [aStart, aEnd) and [bStart, bEnd). */
  datatype Window = Window(aStart: int, aEnd: int, bStart: int, bEnd: int)

  predicate ValidStart(m: Region, aLo: int, bLo: int)
  {
    aLo < m.aStart && bLo < m.bStart
  }

  predicate ValidEnd(m: Region, aHi: int, bHi: int)
  {
    m.aEnd < aHi && m.bEnd < bHi
  }

  /** length(): 0 for a nil region. */
  function Length(m: Option<Region>): int
  {
    if m.None? then 0 else m.value.aEnd - m.value.aStart
  }

  function Min(x: int, y: int): int
  {
    if y < x then y else x
  }

  predicate WindowIn(a: seq<string>, b: seq<string>, w: Window)
  {
    0 <= w.aStart <= w.aEnd <= |a| && 0 <= w.bStart <= w.bEnd <= |b|
  }

  /** A non-empty region inside w whose paired lines are equal once trimmed. */
  predicate Matching(a: seq<string>, b: seq<string>, trim: string -> string, w: Window, r: Region)
  {
    && w.aStart <= r.aStart < r.aEnd <= w.aEnd
    && w.bStart <= r.bStart < r.bEnd <= w.bEnd
    && r.aEnd - r.aStart == r.bEnd - r.bStart
    && 0 <= r.aStart && r.aEnd <= |a| && 0 <= r.bStart && r.bEnd <= |b|
    && forall i :: r.aStart <= i < r.aEnd ==> trim(a[i]) == trim(b[r.bStart + (i - r.aStart)])
  }

  // ---------------------------------------------------------------------------
  // The histogram of A

  type Hist = map<string, seq<int>>

  /** histogram[line]: a missing key reads as the empty list. */
  function Occ(h: Hist, line: string): seq<int>
  {
    if line in h then h[line] else []
  }

  /** h lists, for every trimmed line, the indices in [lo, hi) of the lines
      of A that trim to it, in increasing order. */
  ghost predicate IsHistogram(a: seq<string>, trim: string -> string, lo: int, hi: int, h: Hist)
    requires 0 <= lo <= hi <= |a|
  {
    && (forall line, k :: 0 <= k < |Occ(h, line)| ==> lo <= Occ(h, line)[k] < hi && trim(a[Occ(h, line)[k]]) == line)
    && (forall line, k, m :: 0 <= k < m < |Occ(h, line)| ==> Occ(h, line)[k] < Occ(h, line)[m])
    && (forall i :: lo <= i < hi ==> i in Occ(h, trim(a[i])))
  }

  /** createAHistogram(lo, hi). */
  function CreateAHistogram(a: seq<string>, trim: string -> string, lo: int, hi: int): (h: Hist)
    requires 0 <= lo <= hi <= |a|
    ensures IsHistogram(a, trim, lo, hi, h)
    decreases hi - lo
  {
    if hi == lo then map[]
    else
      var h := CreateAHistogram(a, trim, lo, hi - 1);
      var line := trim(a[hi - 1]);
      HistogramStep(a, trim, lo, hi, h);
      h[line := Occ(h, line) + [hi - 1]]
  }

  /** Appending index hi - 1 under its trimmed line extends a histogram of
      [lo, hi - 1) to one of [lo, hi). */
  lemma HistogramStep(a: seq<string>, trim: string -> string, lo: int, hi: int, h: Hist)
    requires 0 <= lo < hi <= |a| && IsHistogram(a, trim, lo, hi - 1, h)
    ensures IsHistogram(a, trim, lo, hi, h[trim(a[hi - 1]) := Occ(h, trim(a[hi - 1])) + [hi - 1]])
  {
    var line := trim(a[hi - 1]);
    assert OccBounded(a, trim, lo, hi - 1, h);
    StepBounds(a, trim, lo, hi, h, line);
    StepIncreasing(a, trim, lo, hi, h, line);
    StepCovers(a, trim, lo, hi, h, line);
  }

  /** The list under one line after appending v to it. */
  lemma OccAppended(h: Hist, line: string, v: int, l: string)
    ensures Occ(h[line := Occ(h, line) + [v]], l) == if l == line then Occ(h, line) + [v] else Occ(h, l)
  {
  }

  /** Every listed index lies in [lo, hi) and trims to its line. */
  ghost predicate OccBounded(a: seq<string>, trim: string -> string, lo: int, hi: int, h: Hist)
    requires 0 <= lo <= hi <= |a|
  {
    forall line, k :: 0 <= k < |Occ(h, line)| ==> lo <= Occ(h, line)[k] < hi && trim(a[Occ(h, line)[k]]) == line
  }

  /** After the step every listed index lies in [lo, hi) and trims to its line. */
  lemma StepBounds(a: seq<string>, trim: string -> string, lo: int, hi: int, h: Hist, line: string)
    requires 0 <= lo < hi <= |a| && OccBounded(a, trim, lo, hi - 1, h) && line == trim(a[hi - 1])
    ensures OccBounded(a, trim, lo, hi, h[line := Occ(h, line) + [hi - 1]])
  {
    var h2 := h[line := Occ(h, line) + [hi - 1]];
    forall l, k | 0 <= k < |Occ(h2, l)|
      ensures lo <= Occ(h2, l)[k] < hi && trim(a[Occ(h2, l)[k]]) == l
    {
      if l == line {
        StepBoundsSame(a, trim, lo, hi, h, line, k);
      } else {
        StepBoundsOther(a, trim, lo, hi, h, line, l, k);
      }
    }
  }

  /** The list of the appended line: its old entries, then hi - 1. */
  lemma StepBoundsSame(a: seq<string>, trim: string -> string, lo: int, hi: int, h: Hist, line: string, k: int)
    requires 0 <= lo < hi <= |a| && OccBounded(a, trim, lo, hi - 1, h) && line == trim(a[hi - 1])
    requires 0 <= k <= |Occ(h, line)|
    ensures var s := Occ(h[line := Occ(h, line) + [hi - 1]], line);
      k < |s| && lo <= s[k] < hi && trim(a[s[k]]) == line
  {
    OccAppended(h, line, hi - 1, line);
    var s := Occ(h, line) + [hi - 1];
    if k < |Occ(h, line)| {
      var j := Occ(h, line)[k];
      assert lo <= j < hi - 1 && trim(a[j]) == line;
      assert s[k] == j;
    } else {
      assert s[k] == hi - 1;
    }
  }

  /** Every other list is unchanged. */
  lemma StepBoundsOther(a: seq<string>, trim: string -> string, lo: int, hi: int, h: Hist, line: string, l: string, k: int)
    requires 0 <= lo < hi <= |a| && OccBounded(a, trim, lo, hi - 1, h) && l != line
    requires 0 <= k < |Occ(h[line := Occ(h, line) + [hi - 1]], l)|
    ensures var s := Occ(h[line := Occ(h, line) + [hi - 1]], l);
      lo <= s[k] < hi && trim(a[s[k]]) == l
  {
    OccAppended(h, line, hi - 1, l);
    var j := Occ(h, l)[k];
    assert lo <= j < hi - 1 && trim(a[j]) == l;
  }

  /** After the step every list is still increasing: hi - 1 exceeds every
      index listed before it. */
  lemma StepIncreasing(a: seq<string>, trim: string -> string, lo: int, hi: int, h: Hist, line: string)
    requires 0 <= lo < hi <= |a| && IsHistogram(a, trim, lo, hi - 1, h) && line == trim(a[hi - 1])
    ensures var h2 := h[line := Occ(h, line) + [hi - 1]];
      forall l, k, m :: 0 <= k < m < |Occ(h2, l)| ==> Occ(h2, l)[k] < Occ(h2, l)[m]
  {
    var h2 := h[line := Occ(h, line) + [hi - 1]];
    forall l, k, m | 0 <= k < m < |Occ(h2, l)|
      ensures Occ(h2, l)[k] < Occ(h2, l)[m]
    {
      StepIncreasingAt(a, trim, lo, hi, h, line, l, k, m);
    }
  }

  /** One pair of entries of one list after the step. */
  lemma StepIncreasingAt(a: seq<string>, trim: string -> string, lo: int, hi: int, h: Hist, line: string, l: string, k: int, m: int)
    requires 0 <= lo < hi <= |a| && IsHistogram(a, trim, lo, hi - 1, h)
    requires 0 <= k < m < |Occ(h[line := Occ(h, line) + [hi - 1]], l)|
    ensures var s := Occ(h[line := Occ(h, line) + [hi - 1]], l);
      s[k] < s[m]
  {
    OccAppended(h, line, hi - 1, l);
    var s0 := Occ(h, l);
    if l != line || m < |s0| {
      assert s0[k] < s0[m];
    } else {
      assert lo <= s0[k] < hi - 1;
    }
  }

  /** After the step every index of [lo, hi) is listed under its line. */
  lemma StepCovers(a: seq<string>, trim: string -> string, lo: int, hi: int, h: Hist, line: string)
    requires 0 <= lo < hi <= |a| && IsHistogram(a, trim, lo, hi - 1, h) && line == trim(a[hi - 1])
    ensures var h2 := h[line := Occ(h, line) + [hi - 1]];
      forall i :: lo <= i < hi ==> i in Occ(h2, trim(a[i]))
  {
    var h2 := h[line := Occ(h, line) + [hi - 1]];
    forall i | lo <= i < hi
      ensures i in Occ(h2, trim(a[i]))
    {
      OccAppended(h, line, hi - 1, trim(a[i]));
      if i < hi - 1 {
        assert i in Occ(h, trim(a[i]));
      }
    }
  }

  /** An increasing list of indices in [lo, hi) has at most hi - lo entries. */
  lemma {:induction false} IncreasingBound(s: seq<int>, lo: int, hi: int)
    requires forall k :: 0 <= k < |s| ==> lo <= s[k] < hi
    requires forall k, m :: 0 <= k < m < |s| ==> s[k] < s[m]
    ensures |s| <= if hi < lo then 0 else hi - lo
  {
    if s != [] {
      IncreasingBound(s[1..], s[0] + 1, hi);
    }
  }

  // ---------------------------------------------------------------------------
  // longestSubstring

  /** What the loops of longestSubstring work with. */
  datatype Ctx = Ctx(a: seq<string>, b: seq<string>, trim: string -> string, w: Window, hist: Hist)

  ghost predicate ValidCtx(c: Ctx)
  {
    WindowIn(c.a, c.b, c.w) && IsHistogram(c.a, c.trim, c.w.aStart, c.w.aEnd, c.hist)
  }

  /** eq(aIdx, bIdx). */
  predicate LinesEq(c: Ctx, i: int, j: int)
    requires 0 <= i < |c.a| && 0 <= j < |c.b|
  {
    c.trim(c.a[i]) == c.trim(c.b[j])
  }

  predicate InCtx(c: Ctx, r: Region)
  {
    Matching(c.a, c.b, c.trim, c.w, r)
  }

  /** The region's score: the lowest occurrence count of a line it covered
      while the score was above 1. */
  function Rescore(c: Ctx, r: Region, i: int): (s: Region)
    requires 0 <= i < |c.a|
    ensures s.aStart == r.aStart && s.aEnd == r.aEnd && s.bStart == r.bStart && s.bEnd == r.bEnd
    ensures s.matchScore <= r.matchScore
  {
    if r.matchScore > 1 then r.(matchScore := Min(r.matchScore, |Occ(c.hist, c.trim(c.a[i]))|)) else r
  }

  /** The lines just before the region lie in the window and match. */
  predicate CanGrowStart(c: Ctx, r: Region)
    requires WindowIn(c.a, c.b, c.w) && InCtx(c, r)
  {
    ValidStart(r, c.w.aStart, c.w.bStart) && LinesEq(c, r.aStart - 1, r.bStart - 1)
  }

  /** The lines just after the region lie in the window and match. */
  predicate CanGrowEnd(c: Ctx, r: Region)
    requires WindowIn(c.a, c.b, c.w) && InCtx(c, r)
  {
    ValidEnd(r, c.w.aEnd, c.w.bEnd) && LinesEq(c, r.aEnd, r.bEnd)
  }

  /** "expand beginning of match region": grow the region backwards while the
      lines before it match; it then cannot grow further. */
  function ExpandStart(c: Ctx, r: Region): (s: Region)
    requires WindowIn(c.a, c.b, c.w) && InCtx(c, r)
    ensures InCtx(c, s) && s.aEnd == r.aEnd && s.bEnd == r.bEnd && s.aStart <= r.aStart
    ensures !CanGrowStart(c, s)
    decreases r.aStart
  {
    if CanGrowStart(c, r) then
      var s := r.(aStart := r.aStart - 1, bStart := r.bStart - 1);
      StartGrows(c, r);
      ExpandStart(c, Rescore(c, s, s.aStart))
    else r
  }

  /** A region whose preceding lines match still matches one line earlier. */
  lemma StartGrows(c: Ctx, r: Region)
    requires WindowIn(c.a, c.b, c.w) && InCtx(c, r)
    requires CanGrowStart(c, r)
    ensures var s := r.(aStart := r.aStart - 1, bStart := r.bStart - 1);
      InCtx(c, s) && InCtx(c, Rescore(c, s, s.aStart))
  {
    var s := r.(aStart := r.aStart - 1, bStart := r.bStart - 1);
    forall i | s.aStart <= i < s.aEnd
      ensures c.trim(c.a[i]) == c.trim(c.b[s.bStart + (i - s.aStart)])
    {
      if i > s.aStart {
        assert s.bStart + (i - s.aStart) == r.bStart + (i - r.aStart);
      }
    }
    assert InCtx(c, s);
  }

  /** "expand end of match region": grow the region forwards while the lines
      after it match; it then cannot grow further. */
  function ExpandEnd(c: Ctx, r: Region): (s: Region)
    requires WindowIn(c.a, c.b, c.w) && InCtx(c, r)
    ensures InCtx(c, s) && s.aStart == r.aStart && s.bStart == r.bStart && s.aEnd >= r.aEnd
    ensures !CanGrowEnd(c, s)
    decreases c.w.aEnd - r.aEnd
  {
    if CanGrowEnd(c, r) then
      var s := Rescore(c, r, r.aEnd);
      ExpandEnd(c, s.(aEnd := s.aEnd + 1, bEnd := s.bEnd + 1))
    else r
  }

  /** The best match so far: nil, or a matching region. */
  predicate BestOk(c: Ctx, best: Option<Region>)
  {
    best.Some? ==> InCtx(c, best.value)
  }

  /** Every index in occ is a line of A in the window matching line bIdx of B. */
  predicate OccursAt(c: Ctx, bIdx: int, occ: seq<int>)
    requires WindowIn(c.a, c.b, c.w) && c.w.bStart <= bIdx < c.w.bEnd
  {
    forall k :: 0 <= k < |occ| ==> c.w.aStart <= occ[k] < c.w.aEnd && LinesEq(c, occ[k], bIdx)
  }

  lemma OccursTail(c: Ctx, bIdx: int, occ: seq<int>)
    requires WindowIn(c.a, c.b, c.w) && c.w.bStart <= bIdx < c.w.bEnd
    requires occ != [] && OccursAt(c, bIdx, occ)
    ensures c.w.aStart <= occ[0] < c.w.aEnd && LinesEq(c, occ[0], bIdx)
    ensures OccursAt(c, bIdx, occ[1..])
  {
    forall k | 0 <= k < |occ| - 1
      ensures c.w.aStart <= occ[1..][k] < c.w.aEnd && LinesEq(c, occ[1..][k], bIdx)
    {
      assert occ[1..][k] == occ[k + 1];
    }
  }

  /** The one-line region at a matching pair, scored with the window's
      length in A as the code starts it. */
  function Seed(c: Ctx, ai: int, bIdx: int): (r: Region)
    requires WindowIn(c.a, c.b, c.w) && c.w.aStart <= ai < c.w.aEnd && c.w.bStart <= bIdx < c.w.bEnd
    requires LinesEq(c, ai, bIdx)
    ensures InCtx(c, r) && r.aEnd - r.aStart == 1
  {
    var r := Region(ai, ai + 1, bIdx, bIdx + 1, c.w.aEnd - c.w.aStart);
    assert r.bStart + (ai - r.aStart) == bIdx;
    r
  }

  /** The inner loop over the occurrences in A of line bIdx of B: returns
      nextB, bestMatch and bestMatchScore. The cursor never moves back and
      never passes the end of the window; a region once found is never lost. */
  function Candidates(c: Ctx, bIdx: int, occ: seq<int>, prevA: int, nextB: int, best: Option<Region>, bestScore: int): (r: (int, Option<Region>, int))
    requires WindowIn(c.a, c.b, c.w) && c.w.bStart <= bIdx < nextB <= c.w.bEnd
    requires OccursAt(c, bIdx, occ)
    requires BestOk(c, best)
    ensures nextB <= r.0 <= c.w.bEnd && BestOk(c, r.1)
    ensures best.Some? ==> r.1.Some?
    ensures best.None? && occ != [] && occ[0] >= prevA ==> r.1.Some?
    ensures r.1.None? ==> r.2 == bestScore
    decreases |occ|
  {
    if occ == [] then (nextB, best, bestScore)
    else
      var ai := occ[0];
      OccursTail(c, bIdx, occ);
      if ai < prevA then Candidates(c, bIdx, occ[1..], prevA, nextB, best, bestScore)
      else
        var r := ExpandEnd(c, ExpandStart(c, Seed(c, ai, bIdx)));
        var better := Length(best) < Length(Some(r)) || r.matchScore < bestScore;
        var best2 := if better then Some(r) else best;
        var score2 := if better then r.matchScore else bestScore;
        var next2 := if nextB < r.bEnd then r.bEnd else nextB;
        Candidates(c, bIdx, occ[1..], r.aEnd, next2, best2, score2)
  }

  /** The outer loop over the lines of B in the window, from bIdx on. */
  function ScanB(c: Ctx, bIdx: int, best: Option<Region>, bestScore: int): (r: Option<Region>)
    requires ValidCtx(c) && c.w.bStart <= bIdx <= c.w.bEnd
    requires BestOk(c, best)
    ensures BestOk(c, r)
    ensures best.Some? ==> r.Some?
    decreases c.w.bEnd - bIdx
  {
    if bIdx >= c.w.bEnd then best
    else
      var occ := Occ(c.hist, c.trim(c.b[bIdx]));
      if |occ| > bestScore then ScanB(c, bIdx + 1, best, bestScore)
      else
        var step := Candidates(c, bIdx, occ, c.w.aStart, bIdx + 1, best, bestScore);
        ScanB(c, step.0, step.1, step.2)
  }

  /** longestSubstring: nil, or a non-empty region inside the window whose
      paired lines are equal once trimmed. */
  function LongestSubstring(a: seq<string>, b: seq<string>, trim: string -> string, w: Window): (r: Option<Region>)
    requires WindowIn(a, b, w)
    ensures r.Some? ==> Matching(a, b, trim, w, r.value)
  {
    ScanB(HistogramCtx(a, b, trim, w), w.bStart, None, w.aEnd - w.aStart)
  }

  /** The context longestSubstring scans with: the window and the histogram
      of its lines of A. */
  function HistogramCtx(a: seq<string>, b: seq<string>, trim: string -> string, w: Window): (c: Ctx)
    requires WindowIn(a, b, w)
    ensures ValidCtx(c) && c.a == a && c.b == b && c.trim == trim && c.w == w
  {
    Ctx(a, b, trim, w, CreateAHistogram(a, trim, w.aStart, w.aEnd))
  }

  /** The scan from bIdx with no match yet finds one whenever some line of B
      from bIdx on occurs in the window of A: no occurrence count exceeds the
      initial bestMatchScore, so the first such line is never skipped. */
  lemma {:induction false} ScanFinds(c: Ctx, bIdx: int, i: int, j: int)
    requires ValidCtx(c) && c.w.bStart <= bIdx <= j < c.w.bEnd && c.w.aStart <= i < c.w.aEnd
    requires LinesEq(c, i, j)
    ensures ScanB(c, bIdx, None, c.w.aEnd - c.w.aStart).Some?
    decreases c.w.bEnd - bIdx, 1
  {
    if Occ(c.hist, c.trim(c.b[bIdx])) == [] {
      ScanFindsPast(c, bIdx, i, j);
    } else {
      ScanFindsHere(c, bIdx);
    }
  }

  /** A line of B that does not occur in A is not the matching line j, and
      the scan goes on to the next line with nothing found. */
  lemma {:induction false} ScanFindsPast(c: Ctx, bIdx: int, i: int, j: int)
    requires ValidCtx(c) && c.w.bStart <= bIdx <= j < c.w.bEnd && c.w.aStart <= i < c.w.aEnd
    requires LinesEq(c, i, j) && Occ(c.hist, c.trim(c.b[bIdx])) == []
    ensures ScanB(c, bIdx, None, c.w.aEnd - c.w.aStart).Some?
    decreases c.w.bEnd - bIdx, 0
  {
    assert bIdx != j by {
      assert i in Occ(c.hist, c.trim(c.a[i]));
    }
    ScanFinds(c, bIdx + 1, i, j);
  }

  /** A line of B that occurs in A is never skipped, and its first
      occurrence gives a region. */
  lemma ScanFindsHere(c: Ctx, bIdx: int)
    requires ValidCtx(c) && c.w.bStart <= bIdx < c.w.bEnd
    requires Occ(c.hist, c.trim(c.b[bIdx])) != []
    ensures ScanB(c, bIdx, None, c.w.aEnd - c.w.aStart).Some?
  {
    var occ := Occ(c.hist, c.trim(c.b[bIdx]));
    IncreasingBound(occ, c.w.aStart, c.w.aEnd);
    var step := Candidates(c, bIdx, occ, c.w.aStart, bIdx + 1, None, c.w.aEnd - c.w.aStart);
    assert step.1.Some?;
  }

  /** longestSubstring finds a region exactly when some line of B's window
      equals, once trimmed, some line of A's window. */
  lemma LongestSubstringFinds(a: seq<string>, b: seq<string>, trim: string -> string, w: Window)
    requires WindowIn(a, b, w)
    ensures LongestSubstring(a, b, trim, w).Some? <==>
      exists i, j :: w.aStart <= i < w.aEnd && w.bStart <= j < w.bEnd && trim(a[i]) == trim(b[j])
  {
    if LongestSubstring(a, b, trim, w).Some? {
      FoundIsPair(a, b, trim, w);
    }
    if exists i, j :: w.aStart <= i < w.aEnd && w.bStart <= j < w.bEnd && trim(a[i]) == trim(b[j]) {
      var i, j :| w.aStart <= i < w.aEnd && w.bStart <= j < w.bEnd && trim(a[i]) == trim(b[j]);
      PairFound(a, b, trim, w, i, j);
    }
  }

  /** A region found starts with a matching pair in the window. */
  lemma FoundIsPair(a: seq<string>, b: seq<string>, trim: string -> string, w: Window)
    requires WindowIn(a, b, w) && LongestSubstring(a, b, trim, w).Some?
    ensures exists i, j :: w.aStart <= i < w.aEnd && w.bStart <= j < w.bEnd && trim(a[i]) == trim(b[j])
  {
    MatchingHasPair(a, b, trim, w, LongestSubstring(a, b, trim, w).value);
  }

  lemma MatchingHasPair(a: seq<string>, b: seq<string>, trim: string -> string, w: Window, m: Region)
    requires WindowIn(a, b, w) && Matching(a, b, trim, w, m)
    ensures exists i, j :: w.aStart <= i < w.aEnd && w.bStart <= j < w.bEnd && trim(a[i]) == trim(b[j])
  {
    assert trim(a[m.aStart]) == trim(b[m.bStart + (m.aStart - m.aStart)]);
  }

  /** A matching pair in the window is enough for longestSubstring to find
      a region. */
  lemma PairFound(a: seq<string>, b: seq<string>, trim: string -> string, w: Window, i: int, j: int)
    requires WindowIn(a, b, w) && w.aStart <= i < w.aEnd && w.bStart <= j < w.bEnd
    requires trim(a[i]) == trim(b[j])
    ensures LongestSubstring(a, b, trim, w).Some?
  {
    var c := HistogramCtx(a, b, trim, w);
    assert LinesEq(c, i, j);
    ScanFinds(c, w.bStart, i, j);
  }

  // ---------------------------------------------------------------------------
  // solveRange

  /** The window after region r. */
  function After(w: Window, r: Region): Window
  {
    Window(r.aEnd, w.aEnd, r.bEnd, w.bEnd)
  }

  /** Regions in order: each matching inside the window left by the one
      before it, so they are disjoint and increasing in both A and B. */
  predicate Chain(a: seq<string>, b: seq<string>, trim: string -> string, w: Window, regs: seq<Region>)
    decreases |regs|
  {
    regs == [] || (Matching(a, b, trim, w, regs[0]) && Chain(a, b, trim, After(w, regs[0]), regs[1..]))
  }

  /** A chain inside a smaller window is a chain inside a larger one. */
  lemma {:induction false} ChainWiden(a: seq<string>, b: seq<string>, trim: string -> string, w: Window, v: Window, regs: seq<Region>)
    requires v.aStart <= w.aStart && w.aEnd <= v.aEnd && v.bStart <= w.bStart && w.bEnd <= v.bEnd
    requires Chain(a, b, trim, w, regs)
    ensures Chain(a, b, trim, v, regs)
    decreases |regs|
  {
    if regs != [] {
      ChainWiden(a, b, trim, After(w, regs[0]), After(v, regs[0]), regs[1..]);
    }
  }

  /** A chain ending before region r, then r, then a chain after r, is a chain. */
  lemma {:induction false} ChainJoin(a: seq<string>, b: seq<string>, trim: string -> string, w: Window, left: seq<Region>, r: Region, right: seq<Region>)
    requires Matching(a, b, trim, w, r)
    requires Chain(a, b, trim, Window(w.aStart, r.aStart, w.bStart, r.bStart), left)
    requires Chain(a, b, trim, After(w, r), right)
    ensures Chain(a, b, trim, w, left + [r] + right)
    decreases |left|
  {
    if left == [] {
      assert left + [r] + right == [r] + right;
      assert ([r] + right)[1..] == right;
    } else {
      var l0 := left[0];
      var w1 := After(w, l0);
      assert Matching(a, b, trim, w1, r);
      ChainJoin(a, b, trim, w1, left[1..], r, right);
      assert (left + [r] + right)[1..] == left[1..] + [r] + right;
    }
  }

  /** The regions of a chain are disjoint and strictly increasing in A and B. */
  lemma {:induction false} ChainOrdered(a: seq<string>, b: seq<string>, trim: string -> string, w: Window, regs: seq<Region>)
    requires Chain(a, b, trim, w, regs)
    ensures forall k :: 0 <= k < |regs| ==> Matching(a, b, trim, w, regs[k])
    ensures forall k, m :: 0 <= k < m < |regs| ==> regs[k].aEnd <= regs[m].aStart && regs[k].bEnd <= regs[m].bStart
    decreases |regs|
  {
    if regs != [] {
      var w1 := After(w, regs[0]);
      ChainOrdered(a, b, trim, w1, regs[1..]);
      forall k | 0 < k < |regs| ensures Matching(a, b, trim, w, regs[k]) {
        assert regs[k] == regs[1..][k - 1];
      }
      forall k, m | 0 <= k < m < |regs|
        ensures regs[k].aEnd <= regs[m].aStart && regs[k].bEnd <= regs[m].bStart
      {
        assert regs[m] == regs[1..][m - 1];
        if k > 0 {
          assert regs[k] == regs[1..][k - 1];
        }
      }
    }
  }

  /** solveRange: nothing when either side of the window has at most one
      line; otherwise the regions found before the longest region, that
      region, and the regions found after it, as a chain. */
  function SolveRange(a: seq<string>, b: seq<string>, trim: string -> string, w: Window): (r: seq<Region>)
    requires WindowIn(a, b, w)
    ensures Chain(a, b, trim, w, r)
    ensures w.bEnd - w.bStart <= 1 || w.aEnd - w.aStart <= 1 ==> r == []
    decreases w.aEnd - w.aStart + w.bEnd - w.bStart
  {
    if w.bEnd - w.bStart <= 1 then []
    else if w.aEnd - w.aStart <= 1 then []
    else
      match LongestSubstring(a, b, trim, w)
      case None => []
      case Some(reg) =>
        var before := Window(w.aStart, reg.aStart, w.bStart, reg.bStart);
        var left := SolveRange(a, b, trim, before);
        var right := SolveRange(a, b, trim, After(w, reg));
        ChainJoin(a, b, trim, w, left, reg, right);
        left + [reg] + right
  }

  // ---------------------------------------------------------------------------
  // Solve

  /** "copy match region": the lines of A in the region, each in both columns. */
  function CopyRegion(a: seq<string>, lo: int, hi: int): (r: DiffSolution)
    requires 0 <= lo <= hi <= |a|
    ensures |r| == hi - lo
    ensures forall k :: 0 <= k < |r| ==> r[k] == Line(a[lo + k], a[lo + k], Both)
    ensures Lefts(r) == a[lo..hi] && Rights(r) == a[lo..hi]
    decreases hi - lo
  {
    if lo == hi then []
    else
      var rest := CopyRegion(a, lo + 1, hi);
      CopyRegionCons(a, lo, hi, rest);
      [Line(a[lo], a[lo], Both)] + rest
  }

  /** One more copied line in front of the copied rest. */
  lemma CopyRegionCons(a: seq<string>, lo: int, hi: int, rest: DiffSolution)
    requires 0 <= lo < hi <= |a| && |rest| == hi - lo - 1
    requires forall k :: 0 <= k < |rest| ==> rest[k] == Line(a[lo + 1 + k], a[lo + 1 + k], Both)
    requires Lefts(rest) == a[lo + 1..hi] && Rights(rest) == a[lo + 1..hi]
    ensures var r := [Line(a[lo], a[lo], Both)] + rest;
      (forall k :: 0 <= k < |r| ==> r[k] == Line(a[lo + k], a[lo + k], Both)) &&
      Lefts(r) == a[lo..hi] && Rights(r) == a[lo..hi]
  {
    var x := Line(a[lo], a[lo], Both);
    var r := [x] + rest;
    forall k | 0 <= k < |r| ensures r[k] == Line(a[lo + k], a[lo + k], Both) {
      if k > 0 { assert r[k] == rest[k - 1]; }
    }
    CopyColumnsCons(a, lo, hi, rest);
  }

  lemma CopyColumnsCons(a: seq<string>, lo: int, hi: int, rest: DiffSolution)
    requires 0 <= lo < hi <= |a|
    requires Lefts(rest) == a[lo + 1..hi] && Rights(rest) == a[lo + 1..hi]
    ensures var r := [Line(a[lo], a[lo], Both)] + rest;
      Lefts(r) == a[lo..hi] && Rights(r) == a[lo..hi]
  {
    var x := Line(a[lo], a[lo], Both);
    ColumnsAppend([x], rest);
    ColumnsOne(x);
    assert a[lo..hi] == [a[lo]] + a[lo + 1..hi];
  }

  /** A gap as the code diffs it: NewSequenceDiffer(a, b).Solve(), which
      compares exactly. */
  function Gap(x: seq<string>, y: seq<string>): (r: DiffSolution)
  {
    Sequence.Solve(x, y, false, Sequence.Untrimmed)
  }

  /** A gap diffed by the traceback alone, without SequenceDiffer's
      whole-file special cases for a single empty line. */
  function GapExact(x: seq<string>, y: seq<string>): (r: DiffSolution)
    ensures Lefts(r) == x && Rights(r) == y
  {
    Align.PrefixThenTrace(x, y, Sequence.LineEqOf(false, Sequence.Untrimmed), Align.LaterWins)
  }

  /** Columns equal line by line once trimmed. */
  predicate TrimEqual(trim: string -> string, xs: seq<string>, ys: seq<string>)
  {
    |xs| == |ys| && forall k :: 0 <= k < |xs| ==> trim(xs[k]) == trim(ys[k])
  }

  lemma TrimEqualAppend(trim: string -> string, xs: seq<string>, ys: seq<string>, us: seq<string>, vs: seq<string>)
    requires TrimEqual(trim, xs, ys) && TrimEqual(trim, us, vs)
    ensures TrimEqual(trim, xs + us, ys + vs)
  {
    assert forall k :: |xs| <= k < |xs + us| ==> (xs + us)[k] == us[k - |xs|] && (ys + vs)[k] == vs[k - |ys|];
  }

  /** The whole-file special cases of SequenceDiffer never fire on a gap:
      neither side of any gap is the single empty line. */
  predicate GapsPlain(a: seq<string>, b: seq<string>, trim: string -> string, regs: seq<Region>, pa: int, pb: int)
    requires 0 <= pa <= |a| && 0 <= pb <= |b| && Chain(a, b, trim, Window(pa, |a|, pb, |b|), regs)
    decreases |regs|
  {
    if regs == [] then a[pa..] != [""] && b[pb..] != [""]
    else
      var r := regs[0];
      && a[pa..r.aStart] != [""] && b[pb..r.bStart] != [""]
      && GapsPlain(a, b, trim, regs[1..], r.aEnd, r.bEnd)
  }

  /** One gap, then one region, then the rest: the columns add up to the
      rest of A and, line by line up to trimming, to the rest of B. */
  lemma GapRegionRest(a: seq<string>, b: seq<string>, trim: string -> string, pa: int, pb: int, r: Region, g: DiffSolution, m: DiffSolution, rest: DiffSolution)
    requires 0 <= pa <= r.aStart && 0 <= pb <= r.bStart
    requires Matching(a, b, trim, Window(pa, |a|, pb, |b|), r)
    requires Lefts(g) == a[pa..r.aStart] && Rights(g) == b[pb..r.bStart]
    requires Lefts(m) == a[r.aStart..r.aEnd] && Rights(m) == a[r.aStart..r.aEnd]
    requires Lefts(rest) == a[r.aEnd..] && TrimEqual(trim, Rights(rest), b[r.bEnd..])
    ensures Lefts(g + m + rest) == a[pa..] && TrimEqual(trim, Rights(g + m + rest), b[pb..])
  {
    ColumnsAppend(g, m);
    ColumnsAppend(g + m, rest);
    SliceJoin(a, pa, r.aStart, r.aEnd);
    SliceJoin(b, pb, r.bStart, r.bEnd);
    RegionTrimEqual(a, b, trim, Window(pa, |a|, pb, |b|), r);
    TrimEqualRefl(trim, b[pb..r.bStart]);
    TrimEqualAppend(trim, b[pb..r.bStart], b[pb..r.bStart], a[r.aStart..r.aEnd], b[r.bStart..r.bEnd]);
    TrimEqualAppend(trim, b[pb..r.bStart] + a[r.aStart..r.aEnd], b[pb..r.bStart] + b[r.bStart..r.bEnd], Rights(rest), b[r.bEnd..]);
  }

  lemma TrimEqualRefl(trim: string -> string, xs: seq<string>)
    ensures TrimEqual(trim, xs, xs)
  {
  }

  /** The two sides of a matching region are equal line by line once trimmed. */
  lemma RegionTrimEqual(a: seq<string>, b: seq<string>, trim: string -> string, w: Window, r: Region)
    requires Matching(a, b, trim, w, r)
    ensures TrimEqual(trim, a[r.aStart..r.aEnd], b[r.bStart..r.bEnd])
  {
    forall k | 0 <= k < r.aEnd - r.aStart
      ensures trim(a[r.aStart..r.aEnd][k]) == trim(b[r.bStart..r.bEnd][k])
    {
      var i := r.aStart + k;
      assert trim(a[i]) == trim(b[r.bStart + (i - r.aStart)]);
    }
  }

  /** The loop of Solve from the gap that starts at (pa, pb): each gap is
      diffed by SequenceDiffer and each region copied. When no gap is the
      single empty line, the left column is the rest of A and the right
      column is the rest of B up to trimming. */
  function Fill(a: seq<string>, b: seq<string>, trim: string -> string, regs: seq<Region>, pa: int, pb: int): (r: DiffSolution)
    requires 0 <= pa <= |a| && 0 <= pb <= |b| && Chain(a, b, trim, Window(pa, |a|, pb, |b|), regs)
    ensures GapsPlain(a, b, trim, regs, pa, pb) ==> Lefts(r) == a[pa..] && TrimEqual(trim, Rights(r), b[pb..])
    decreases |regs|
  {
    if regs == [] then
      assert TrimEqual(trim, b[pb..], b[pb..]);
      Gap(a[pa..], b[pb..])
    else
      var reg := regs[0];
      var g := Gap(a[pa..reg.aStart], b[pb..reg.bStart]);
      var m := CopyRegion(a, reg.aStart, reg.aEnd);
      var rest := Fill(a, b, trim, regs[1..], reg.aEnd, reg.bEnd);
      assert GapsPlain(a, b, trim, regs, pa, pb) ==> Lefts(g + m + rest) == a[pa..] && TrimEqual(trim, Rights(g + m + rest), b[pb..]) by {
        if GapsPlain(a, b, trim, regs, pa, pb) {
          GapRegionRest(a, b, trim, pa, pb, reg, g, m, rest);
        }
      }
      g + m + rest
  }

  /** Fill's left column, one gap and one region at a time. */
  lemma FillLefts(a: seq<string>, b: seq<string>, trim: string -> string, regs: seq<Region>, pa: int, pb: int)
    requires 0 <= pa <= |a| && 0 <= pb <= |b| && Chain(a, b, trim, Window(pa, |a|, pb, |b|), regs)
    requires regs != []
    ensures var r := regs[0];
      && pa <= r.aStart <= r.aEnd <= |a| && pb <= r.bStart <= r.bEnd <= |b|
      && Lefts(Fill(a, b, trim, regs, pa, pb))
         == Lefts(Gap(a[pa..r.aStart], b[pb..r.bStart])) + a[r.aStart..r.aEnd]
            + Lefts(Fill(a, b, trim, regs[1..], r.aEnd, r.bEnd))
  {
    var r := regs[0];
    var g := Gap(a[pa..r.aStart], b[pb..r.bStart]);
    var m := CopyRegion(a, r.aStart, r.aEnd);
    var rest := Fill(a, b, trim, regs[1..], r.aEnd, r.bEnd);
    assert Fill(a, b, trim, regs, pa, pb) == g + m + rest;
    ColumnsAppend(g, m);
    ColumnsAppend(g + m, rest);
  }

  /** With an empty gap before it, the first region starts the left column. */
  lemma LeftsOfFirst(a: seq<string>, b: seq<string>, trim: string -> string, regs: seq<Region>, pa: int, pb: int)
    requires 0 <= pa <= |a| && 0 <= pb <= |b| && Chain(a, b, trim, Window(pa, |a|, pb, |b|), regs)
    requires regs != [] && pa <= regs[0].aStart <= |a| && pb <= regs[0].bStart <= |b|
    requires Lefts(Gap(a[pa..regs[0].aStart], b[pb..regs[0].bStart])) == []
    ensures var r := regs[0];
      r.aStart <= r.aEnd <= |a| && r.bStart <= r.bEnd <= |b| &&
      Lefts(Fill(a, b, trim, regs, pa, pb)) == a[r.aStart..r.aEnd] + Lefts(Fill(a, b, trim, regs[1..], r.aEnd, r.bEnd))
  {
    FillLefts(a, b, trim, regs, pa, pb);
    var r := regs[0];
    AppendEmpty(a[r.aStart..r.aEnd]);
  }

  /** Fill with every gap diffed by the traceback alone: the left column is
      the rest of A and the right column the rest of B up to trimming, for
      every chain of regions. */
  function FillExact(a: seq<string>, b: seq<string>, trim: string -> string, regs: seq<Region>, pa: int, pb: int): (r: DiffSolution)
    requires 0 <= pa <= |a| && 0 <= pb <= |b| && Chain(a, b, trim, Window(pa, |a|, pb, |b|), regs)
    ensures Lefts(r) == a[pa..] && TrimEqual(trim, Rights(r), b[pb..])
    decreases |regs|
  {
    if regs == [] then
      assert TrimEqual(trim, b[pb..], b[pb..]);
      GapExact(a[pa..], b[pb..])
    else
      var reg := regs[0];
      var g := GapExact(a[pa..reg.aStart], b[pb..reg.bStart]);
      var m := CopyRegion(a, reg.aStart, reg.aEnd);
      var rest := FillExact(a, b, trim, regs[1..], reg.aEnd, reg.bEnd);
      GapRegionRest(a, b, trim, pa, pb, reg, g, m, rest);
      g + m + rest
  }

  function AllOf(a: seq<string>, b: seq<string>): Window
  {
    Window(0, |a|, 0, |b|)
  }

  /** HistogramDiffer.Solve: regions over the whole of A and B, gaps and
      regions stitched together, then PostProcess. When A is the single empty
      line no region is found and the one gap shows B alone as additions;
      when B is, A alone as deletions. When no gap is the single empty line
      the columns are A and, up to trimming, B. */
  function Solve(a: seq<string>, b: seq<string>, trim: string -> string): (r: DiffSolution)
    ensures a == [""] ==> Lefts(r) == [] && Rights(r) == b && forall k :: 0 <= k < |r| ==> r[k].src == FromB
    ensures a != [""] && b == [""] ==> Lefts(r) == a && Rights(r) == [] && forall k :: 0 <= k < |r| ==> r[k].src == FromA
    ensures var regs := SolveRange(a, b, trim, AllOf(a, b));
      GapsPlain(a, b, trim, regs, 0, 0) ==> Lefts(r) == a && TrimEqual(trim, Rights(r), b)
  {
    var regs := SolveRange(a, b, trim, AllOf(a, b));
    var d := Fill(a, b, trim, regs, 0, 0);
    PostProcessKeepsColumns(d);
    WholeGap(a, b, trim);
    PostProcessSources(d);
    PostProcess(d)
  }

  /** With either side the single empty line no region is found, so the one
      gap is the whole of A and B and SequenceDiffer's whole-file case
      decides every row's source. */
  lemma WholeGap(a: seq<string>, b: seq<string>, trim: string -> string)
    ensures var d := Fill(a, b, trim, SolveRange(a, b, trim, AllOf(a, b)), 0, 0);
      && (a == [""] ==> Lefts(d) == [] && Rights(d) == b && forall k :: 0 <= k < |d| ==> d[k].src == FromB)
      && (a != [""] && b == [""] ==> Lefts(d) == a && Rights(d) == [] && forall k :: 0 <= k < |d| ==> d[k].src == FromA)
  {
    if a == [""] || b == [""] {
      assert SolveRange(a, b, trim, AllOf(a, b)) == [];
      assert a[0..] == a && b[0..] == b;
    }
  }

  /** PostProcess only moves rows, so a source every row has survives it. */
  lemma PostProcessSources(d: DiffSolution)
    ensures forall k :: 0 <= k < |PostProcess(d)| ==> PostProcess(d)[k] in d
  {
    var r := PostProcess(d);
    PostProcessPermutes(d);
    forall k | 0 <= k < |r| ensures r[k] in d {
      assert r[k] in multiset(r);
    }
  }

  /** Solve, corrected: the traceback alone diffs every gap except the whole
      text, which keeps SequenceDiffer's one-sided display. Its columns are A
      and, up to trimming, B unless a side is the empty text. */
  function SolveExact(a: seq<string>, b: seq<string>, trim: string -> string): (r: DiffSolution)
    ensures a == [""] ==> Lefts(r) == [] && Rights(r) == b && forall k :: 0 <= k < |r| ==> r[k].src == FromB
    ensures a != [""] && b == [""] ==> Lefts(r) == a && Rights(r) == [] && forall k :: 0 <= k < |r| ==> r[k].src == FromA
    ensures a != [""] && b != [""] ==> Lefts(r) == a && TrimEqual(trim, Rights(r), b)
  {
    if a == [""] || b == [""] then Solve(a, b, trim)
    else
      var regs := SolveRange(a, b, trim, AllOf(a, b));
      var d := FillExact(a, b, trim, regs, 0, 0);
      PostProcessKeepsColumns(d);
      PostProcess(d)
  }

  /** The correction changes nothing unless some gap is the single empty
      line: the code as written and the corrected Solve then agree. */
  lemma SolveExactAgrees(a: seq<string>, b: seq<string>, trim: string -> string)
    requires GapsPlain(a, b, trim, SolveRange(a, b, trim, AllOf(a, b)), 0, 0)
    ensures SolveExact(a, b, trim) == Solve(a, b, trim)
  {
    var regs := SolveRange(a, b, trim, AllOf(a, b));
    if regs == [] {
      assert a[0..] == a && b[0..] == b;
    }
    FillAgrees(a, b, trim, regs, 0, 0);
  }

  /** Gap by gap, SequenceDiffer and the traceback alone agree when no gap
      is the single empty line. */
  lemma {:induction false} FillAgrees(a: seq<string>, b: seq<string>, trim: string -> string, regs: seq<Region>, pa: int, pb: int)
    requires 0 <= pa <= |a| && 0 <= pb <= |b| && Chain(a, b, trim, Window(pa, |a|, pb, |b|), regs)
    requires GapsPlain(a, b, trim, regs, pa, pb)
    ensures Fill(a, b, trim, regs, pa, pb) == FillExact(a, b, trim, regs, pa, pb)
    decreases |regs|
  {
    if regs != [] {
      var r := regs[0];
      FillAgrees(a, b, trim, regs[1..], r.aEnd, r.bEnd);
    }
  }

  /** HistogramDiff as the code runs it: NewHistogramDiffer(...).Solve() on
      both texts split on newlines. An empty left text shows only additions
      and an empty right text only deletions; otherwise, when no gap is the
      single empty line, the left column joined again is the left text and
      the right column is the right text's lines up to trimming. */
  function HistogramDiff(a: string, b: string, trim: string -> string): (r: DiffSolution)
    ensures a == "" ==> Lefts(r) == [] && Rights(r) == SplitLines(b) && forall k :: 0 <= k < |r| ==> r[k].src == FromB
    ensures a != "" && b == "" ==> |Lefts(r)| >= 1 && JoinLines(Lefts(r)) == a && Rights(r) == [] && forall k :: 0 <= k < |r| ==> r[k].src == FromA
    ensures var aw := SplitLines(a); var bw := SplitLines(b);
      GapsPlain(aw, bw, trim, SolveRange(aw, bw, trim, AllOf(aw, bw)), 0, 0) ==>
        |Lefts(r)| >= 1 && JoinLines(Lefts(r)) == a && TrimEqual(trim, Rights(r), bw)
  {
    Sequence.SplitLinesEmpty(a);
    Sequence.SplitLinesEmpty(b);
    JoinSplitLines(a);
    Solve(SplitLines(a), SplitLines(b), trim)
  }

  /** HistogramDiff, corrected: the same display for an empty text, and the
      left column joined again is the left text whenever it is not empty. */
  function HistogramDiffExact(a: string, b: string, trim: string -> string): (r: DiffSolution)
    ensures a == "" ==> Lefts(r) == [] && Rights(r) == SplitLines(b) && forall k :: 0 <= k < |r| ==> r[k].src == FromB
    ensures a != "" ==> |Lefts(r)| >= 1 && JoinLines(Lefts(r)) == a
    ensures a != "" && b == "" ==> Rights(r) == [] && forall k :: 0 <= k < |r| ==> r[k].src == FromA
    ensures a != "" && b != "" ==> TrimEqual(trim, Rights(r), SplitLines(b))
  {
    Sequence.SplitLinesEmpty(a);
    Sequence.SplitLinesEmpty(b);
    JoinSplitLines(a);
    SolveExact(SplitLines(a), SplitLines(b), trim)
  }

  // ---------------------------------------------------------------------------
  // A blank line facing a changed line

  const BlankA: seq<string> := ["x", "", "y"]
  const BlankB: seq<string> := ["x", "z", "y"]
  const BlankRegions: seq<Region> := [Region(0, 1, 0, 1, 3), Region(2, 3, 2, 3, 2)]

  function Same(s: string): string
  {
    s
  }

  lemma BlankChain()
    ensures Chain(BlankA, BlankB, Same, AllOf(BlankA, BlankB), BlankRegions)
    ensures Chain(BlankA, BlankB, Same, Window(1, 3, 1, 3), BlankRegions[1..])
  {
    assert Chain(BlankA, BlankB, Same, Window(3, 3, 3, 3), BlankRegions[2..]);
    assert Chain(BlankA, BlankB, Same, Window(1, 3, 1, 3), BlankRegions[1..]);
  }

  lemma BlankGaps()
    ensures Lefts(Gap(BlankA[0..0], BlankB[0..0])) == []
    ensures Lefts(Gap(BlankA[1..2], BlankB[1..2])) == []
    ensures Lefts(Gap(BlankA[3..], BlankB[3..])) == []
  {
    assert BlankA[0..0] == [] && BlankB[0..0] == [];
    assert BlankA[1..2] == [""];
    assert BlankA[3..] == [] && BlankB[3..] == [];
  }

  lemma BlankTail()
    ensures Chain(BlankA, BlankB, Same, Window(1, 3, 1, 3), BlankRegions[1..])
    ensures Lefts(Fill(BlankA, BlankB, Same, BlankRegions[1..], 1, 1)) == ["y"]
  {
    BlankChain();
    BlankGaps();
    TailShape();
    TailEnd();
    LeftsOfFirst(BlankA, BlankB, Same, BlankRegions[1..], 1, 1);
    AppendEmpty(BlankA[2..3]);
  }

  lemma BlankHead()
    ensures BlankA[0..1] == ["x"] && BlankRegions[0] == Region(0, 1, 0, 1, 3)
  {
  }

  lemma TailShape()
    ensures BlankRegions[1..] == [Region(2, 3, 2, 3, 2)]
    ensures BlankRegions[1..][0] == Region(2, 3, 2, 3, 2) && BlankRegions[1..][1..] == []
    ensures BlankA[2..3] == ["y"]
  {
  }

  /** Past the last region both sides are empty and so is the left column. */
  lemma TailEnd()
    ensures Lefts(Fill(BlankA, BlankB, Same, [], 3, 3)) == []
  {
    BlankGaps();
    assert Fill(BlankA, BlankB, Same, [], 3, 3) == Gap(BlankA[3..], BlankB[3..]);
  }

  /** A blank line between two matched lines that faces a changed line is a
      gap whose A side is the single empty line; SequenceDiffer takes it for
      an empty file and the blank line disappears from the left column,
      while FillExact keeps it. */
  lemma BlankGapDropped()
    ensures Chain(BlankA, BlankB, Same, AllOf(BlankA, BlankB), BlankRegions)
    ensures Lefts(Fill(BlankA, BlankB, Same, BlankRegions, 0, 0)) == ["x", "y"]
  {
    BlankChain();
    BlankGaps();
    BlankTail();
    BlankHead();
    LeftsOfFirst(BlankA, BlankB, Same, BlankRegions, 0, 0);
    TwoJoin(BlankA[0..1], Lefts(Fill(BlankA, BlankB, Same, BlankRegions[1..], 1, 1)), "x", "y");
  }

  lemma BlankHistogram()
    ensures CreateAHistogram(BlankA, Same, 0, 3) == map["x" := [0], "" := [1], "y" := [2]]
  {
    assert BlankA[0] == "x" && BlankA[1] == "" && BlankA[2] == "y";
    var h0 := CreateAHistogram(BlankA, Same, 0, 0);
    assert h0 == map[];
    assert Same(BlankA[0]) == "x" && Occ(h0, "x") == [];
    var h1 := CreateAHistogram(BlankA, Same, 0, 1);
    assert h1 == h0["x" := [] + [0]];
    assert [] + [0] == [0];
    assert Same(BlankA[1]) == "" && Occ(h1, "") == [];
    var h2 := CreateAHistogram(BlankA, Same, 0, 2);
    assert h2 == h1["" := [] + [1]];
    assert [] + [1] == [1];
    assert Same(BlankA[2]) == "y" && Occ(h2, "y") == [];
    var h3 := CreateAHistogram(BlankA, Same, 0, 3);
    assert h3 == h2["y" := [] + [2]];
    assert [] + [2] == [2];
  }

  const BlankHist: Hist := map["x" := [0], "" := [1], "y" := [2]]

  function BlankCtx(w: Window): Ctx
  {
    Ctx(BlankA, BlankB, Same, w, BlankHist)
  }

  const R0: Region := Region(0, 1, 0, 1, 3)

  lemma BlankExpandWhole()
    ensures ExpandStart(BlankCtx(AllOf(BlankA, BlankB)), R0) == R0
    ensures ExpandEnd(BlankCtx(AllOf(BlankA, BlankB)), R0) == R0
    ensures ExpandStart(BlankCtx(AllOf(BlankA, BlankB)), Region(2, 3, 2, 3, 3)) == Region(2, 3, 2, 3, 3)
    ensures ExpandEnd(BlankCtx(AllOf(BlankA, BlankB)), Region(2, 3, 2, 3, 3)) == Region(2, 3, 2, 3, 3)
  {
    assert BlankA[1] == "" && BlankB[1] == "z";
  }

  lemma BlankOccurrences()
    ensures Occ(BlankHist, Same(BlankB[0])) == [0]
    ensures Occ(BlankHist, Same(BlankB[1])) == []
    ensures Occ(BlankHist, Same(BlankB[2])) == [2]
  {
    assert BlankB[0] == "x" && BlankB[1] == "z" && BlankB[2] == "y";
  }

  lemma BlankCandidatesLast()
    ensures Candidates(BlankCtx(AllOf(BlankA, BlankB)), 2, [2], 0, 3, Some(R0), 3) == (3, Some(R0), 3)
  {
    var c := BlankCtx(AllOf(BlankA, BlankB));
    BlankExpandWhole();
    assert [2][1..] == [];
  }

  lemma BlankCandidatesFirst()
    ensures Candidates(BlankCtx(AllOf(BlankA, BlankB)), 0, [0], 0, 1, None, 3) == (1, Some(R0), 3)
  {
    var c := BlankCtx(AllOf(BlankA, BlankB));
    BlankExpandWhole();
    assert [0][1..] == [];
  }

  lemma BlankScanWhole()
    ensures ScanB(HistogramCtx(BlankA, BlankB, Same, AllOf(BlankA, BlankB)), 0, None, 3) == Some(R0)
  {
    var c := HistogramCtx(BlankA, BlankB, Same, AllOf(BlankA, BlankB));
    BlankHistogram();
    assert c == BlankCtx(AllOf(BlankA, BlankB));
    BlankOccurrences();
    BlankCandidatesLast();
    BlankCandidatesFirst();
    assert ScanB(c, 2, Some(R0), 3) == Some(R0);
    assert ScanB(c, 1, Some(R0), 3) == Some(R0);
  }

  lemma BlankFirstRegion()
    ensures LongestSubstring(BlankA, BlankB, Same, AllOf(BlankA, BlankB)) == Some(R0)
  {
    BlankScanWhole();
  }

  const W1: Window := Window(1, 3, 1, 3)
  const R1: Region := Region(2, 3, 2, 3, 2)
  const TailHist: Hist := map["" := [1], "y" := [2]]

  lemma TailHistogram()
    ensures CreateAHistogram(BlankA, Same, 1, 3) == TailHist
  {
    assert BlankA[1] == "" && BlankA[2] == "y";
    var h0 := CreateAHistogram(BlankA, Same, 1, 1);
    assert h0 == map[];
    assert Same(BlankA[1]) == "" && Occ(h0, "") == [];
    var h1 := CreateAHistogram(BlankA, Same, 1, 2);
    assert h1 == h0["" := [] + [1]];
    assert [] + [1] == [1];
    assert Same(BlankA[2]) == "y" && Occ(h1, "y") == [];
    var h2 := CreateAHistogram(BlankA, Same, 1, 3);
    assert h2 == h1["y" := [] + [2]];
    assert [] + [2] == [2];
  }

  function TailCtx(): Ctx
  {
    Ctx(BlankA, BlankB, Same, W1, TailHist)
  }

  lemma TailCandidates()
    ensures Candidates(TailCtx(), 2, [2], 1, 3, None, 2) == (3, Some(R1), 2)
  {
    var c := TailCtx();
    assert BlankA[1] == "" && BlankB[1] == "z";
    assert ExpandStart(c, R1) == R1;
    assert ExpandEnd(c, R1) == R1;
    assert [2][1..] == [];
  }

  lemma TailScan()
    ensures ScanB(HistogramCtx(BlankA, BlankB, Same, W1), 1, None, 2) == Some(R1)
  {
    var c := HistogramCtx(BlankA, BlankB, Same, W1);
    TailScanLast();
    TailHistogram();
    assert BlankB[1] == "z";
    assert Occ(c.hist, Same(BlankB[1])) == [];
    ScanSkipsAbsent(c, 1, None, 2);
  }

  /** A line of B that does not occur in A's window is passed over. */
  lemma ScanSkipsAbsent(c: Ctx, bIdx: int, best: Option<Region>, bestScore: int)
    requires ValidCtx(c) && c.w.bStart <= bIdx < c.w.bEnd && BestOk(c, best)
    requires Occ(c.hist, c.trim(c.b[bIdx])) == []
    ensures ScanB(c, bIdx, best, bestScore) == ScanB(c, bIdx + 1, best, bestScore)
  {
  }

  lemma TailScanLast()
    ensures ScanB(HistogramCtx(BlankA, BlankB, Same, W1), 2, None, 2) == Some(R1)
  {
    var c := HistogramCtx(BlankA, BlankB, Same, W1);
    TailHistogram();
    assert c == TailCtx();
    TailCandidates();
    assert BlankB[2] == "y";
    assert Occ(c.hist, Same(BlankB[2])) == [2];
  }

  lemma TailRegions()
    ensures SolveRange(BlankA, BlankB, Same, W1) == [R1]
  {
    TailScan();
    assert LongestSubstring(BlankA, BlankB, Same, W1) == Some(R1);
    SolveRangeUnfold(BlankA, BlankB, Same, W1, R1);
    var left := SolveRange(BlankA, BlankB, Same, Window(1, 2, 1, 2));
    var right := SolveRange(BlankA, BlankB, Same, After(W1, R1));
    assert SolveRange(BlankA, BlankB, Same, W1) == left + [R1] + right;
    assert left == [];
    assert After(W1, R1) == Window(3, 3, 3, 3);
    assert right == [];
    AroundEmpty(left, R1, right);
  }

  lemma SolveRangeUnfold(a: seq<string>, b: seq<string>, trim: string -> string, w: Window, reg: Region)
    requires WindowIn(a, b, w) && w.bEnd - w.bStart > 1 && w.aEnd - w.aStart > 1
    requires LongestSubstring(a, b, trim, w) == Some(reg)
    ensures SolveRange(a, b, trim, w) ==
      SolveRange(a, b, trim, Window(w.aStart, reg.aStart, w.bStart, reg.bStart)) + [reg] + SolveRange(a, b, trim, After(w, reg))
  {
  }

  /** solveRange over the example finds exactly the two single-line regions. */
  lemma BlankRegionsFound()
    ensures SolveRange(BlankA, BlankB, Same, Window(0, 3, 0, 3)) == BlankRegions
  {
    var w := Window(0, 3, 0, 3);
    TailRegions();
    BlankFirstRegion();
    assert AllOf(BlankA, BlankB) == w;
    SolveRangeUnfold(BlankA, BlankB, Same, w, R0);
    var left := SolveRange(BlankA, BlankB, Same, Window(0, 0, 0, 0));
    var right := SolveRange(BlankA, BlankB, Same, After(w, R0));
    assert SolveRange(BlankA, BlankB, Same, w) == left + [R0] + right;
    assert left == [];
    assert After(w, R0) == W1;
    assert right == [R1];
    PairJoin(left, [R0], right, R0, R1);
  }

  /** HistogramDiffer.Solve on the example loses the blank line of A from the
      left column; the corrected SolveExact keeps it. */
  lemma BlankSolveDropsLine()
    ensures Lefts(Solve(BlankA, BlankB, Same)) == ["x", "y"]
    ensures Lefts(SolveExact(BlankA, BlankB, Same)) == BlankA
  {
    BlankSolveLoses();
    BlankExactKeeps();
  }

  lemma BlankSolveLoses()
    ensures Lefts(Solve(BlankA, BlankB, Same)) == ["x", "y"]
  {
    BlankSolveUnfold();
    BlankGapDropped();
    PostProcessKeepsColumns(Fill(BlankA, BlankB, Same, BlankRegions, 0, 0));
  }

  lemma BlankExactKeeps()
    ensures Lefts(SolveExact(BlankA, BlankB, Same)) == BlankA
  {
    assert BlankA != [""] && BlankB != [""];
  }

  lemma BlankSolveUnfold()
    ensures Chain(BlankA, BlankB, Same, Window(0, 3, 0, 3), BlankRegions)
    ensures Solve(BlankA, BlankB, Same) == PostProcess(Fill(BlankA, BlankB, Same, BlankRegions, 0, 0))
  {
    BlankChain();
    BlankRegionsFound();
    assert AllOf(BlankA, BlankB) == Window(0, 3, 0, 3);
  }
}
