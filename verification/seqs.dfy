/** Facts about sequences of any element type. Stated generically they stay
    cheap to use on sequences of strings, whose elements are sequences too. */
module Seqs {
  lemma TakeDrop<T>(x: seq<T>, n: nat)
    requires n <= |x|
    ensures x[..n] + x[n..] == x
  {
  }

  /** The head and tail of a concatenation with a non-empty front. */
  lemma AppendFront<T>(x: seq<T>, y: seq<T>)
    requires x != []
    ensures (x + y)[0] == x[0] && (x + y)[1..] == x[1..] + y
  {
  }

  lemma AppendEmpty<T>(x: seq<T>)
    ensures [] + x == x && x + [] == x
  {
  }

  lemma AppendAssoc<T>(x: seq<T>, y: seq<T>, z: seq<T>)
    ensures (x + y) + z == x + (y + z)
  {
  }

  /** Three adjacent slices put back together. */
  lemma SliceJoin<T>(s: seq<T>, i: nat, j: nat, k: nat)
    requires i <= j <= k <= |s|
    ensures s[i..j] + s[j..k] + s[k..] == s[i..]
  {
  }

  /** Extending a prefix by one element. */
  lemma TakeSnoc<T>(s: seq<T>, i: nat)
    requires i < |s|
    ensures s[..i + 1] == s[..i] + [s[i]]
  {
  }

  lemma TakeAll<T>(s: seq<T>)
    ensures s[..|s|] == s
  {
  }

  /** Indexing past the head of a cons. */
  lemma ConsAt<T>(e: T, m: seq<T>)
    ensures ([e] + m)[0] == e
    ensures forall j :: 1 <= j <= |m| ==> ([e] + m)[j] == m[j - 1]
  {
  }

  lemma HeadTail<T>(m: seq<T>)
    requires m != []
    ensures m == [m[0]] + m[1..]
  {
  }

  /** Two empty pieces between or around two others may trade places. */
  lemma SwapAroundEmpty<T>(a: seq<T>, p: seq<T>, m: seq<T>, q: seq<T>, z: seq<T>)
    requires p == [] && m == []
    ensures a + p + m + q + z == a + q + m + p + z
  {
  }

  lemma PermTrans<T>(a: seq<T>, b: seq<T>, c: seq<T>)
    requires multiset(a) == multiset(b) && multiset(b) == multiset(c)
    ensures multiset(a) == multiset(c)
  {
  }

  lemma PermChain<T>(a: seq<T>, b: seq<T>, c: seq<T>, d: seq<T>)
    requires a == b && multiset(b) == multiset(c) && multiset(c) == multiset(d)
    ensures multiset(a) == multiset(d)
  {
  }

  lemma PairJoin<T>(e: seq<T>, x: seq<T>, y: seq<T>, u: T, v: T)
    requires e == [] && x == [u] && y == [v]
    ensures e + x + y == [u, v]
  {
  }

  lemma ConsOnto<T>(x: T, s: seq<T>, u: T, v: T)
    requires s == [u, v]
    ensures [x] + s == [x, u, v]
  {
  }

  lemma TwoJoin<T>(x: seq<T>, y: seq<T>, u: T, v: T)
    requires x == [u] && y == [v]
    ensures x + y == [u, v]
  {
  }

  lemma PrefixOfPrefix<T>(r: seq<T>, s1: seq<T>, s: seq<T>)
    requires |s| <= |s1| <= |r| && r[..|s1|] == s1 && s1[..|s|] == s
    ensures r[..|s|] == s
  {
    assert r[..|s|] == r[..|s1|][..|s|];
  }

  lemma SnocThenRest<T>(x: seq<T>, ls: seq<T>)
    requires ls != []
    ensures x + [ls[0]] + ls[1..] == x + ls
  {
    HeadTail(ls);
    AppendAssoc(x, [ls[0]], ls[1..]);
  }

  /** The elements at i and j exchanged. */
  function SwapAt<T>(s: seq<T>, i: nat, j: nat): seq<T>
    requires i < |s| && j < |s|
  {
    s[i := s[j]][j := s[i]]
  }

  /** n successive swaps of (p1, p2), (p1 + 1, p2 + 1), … */
  function SwapRun<T>(s: seq<T>, p1: nat, p2: nat, n: nat): seq<T>
    requires p1 < p2 && p2 + n <= |s|
    decreases n
  {
    if n == 0 then s else SwapRun(SwapAt(s, p1, p2), p1 + 1, p2 + 1, n - 1)
  }

  lemma {:induction false} SwapRunPermutes<T>(s: seq<T>, p1: nat, p2: nat, n: nat)
    requires p1 < p2 && p2 + n <= |s|
    ensures multiset(SwapRun(s, p1, p2, n)) == multiset(s)
    decreases n
  {
    if n > 0 {
      SwapRunPermutes(SwapAt(s, p1, p2), p1 + 1, p2 + 1, n - 1);
    }
  }

  /** A slice extended at its front by the element before it. */
  lemma SnocSlice<T>(x: seq<T>, s: seq<T>, i: nat, n: nat)
    requires i < n <= |s|
    ensures x + [s[i]] + s[i + 1..n] == x + s[i..n]
  {
    assert s[i..n] == [s[i]] + s[i + 1..n];
    AppendAssoc(x, [s[i]], s[i + 1..n]);
  }

  lemma AroundEmpty<T>(x: seq<T>, u: T, y: seq<T>)
    requires x == [] && y == []
    ensures x + [u] + y == [u]
  {
  }
}
