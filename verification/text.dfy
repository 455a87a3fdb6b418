/** The string helpers of Go's standard library that the diff code relies on:
    strings.Split on "\n", its inverse strings.Join, and strconv.Itoa. */
module Text {

  /** strings.Split(s, "\n"): the pieces between newlines, always at least one. */
  function SplitLines(s: string): (r: seq<string>)
    ensures |r| >= 1
    ensures forall k :: 0 <= k < |r| ==> '\n' !in r[k]
  {
    if s == [] then [""]
    else
      var rest := SplitLines(s[1..]);
      if s[0] == '\n' then [""] + rest
      else [[s[0]] + rest[0]] + rest[1..]
  }

  /** strings.Join(ls, "\n"). */
  function JoinLines(ls: seq<string>): string
    requires |ls| >= 1
  {
    if |ls| == 1 then ls[0] else ls[0] + "\n" + JoinLines(ls[1..])
  }

  /** Joining the pieces again gives back the text: nothing is lost by the split. */
  lemma {:induction false} JoinSplitLines(s: string)
    ensures JoinLines(SplitLines(s)) == s
  {
    if s != [] {
      var rest := SplitLines(s[1..]);
      JoinSplitLines(s[1..]);
      if s[0] != '\n' && |rest| > 1 {
        assert JoinLines(rest) == rest[0] + "\n" + JoinLines(rest[1..]);
      }
    }
  }

  /** A newline-free piece followed by a newline splits off as one piece. */
  lemma {:induction false} SplitLinesPrefix(w: string, s: string)
    requires '\n' !in w
    ensures SplitLines(w + "\n" + s) == [w] + SplitLines(s)
  {
    if w != [] {
      var t := w + "\n" + s;
      assert t[0] == w[0] && t[1..] == w[1..] + "\n" + s;
      SplitLinesPrefix(w[1..], s);
      assert [w[0]] + w[1..] == w;
    } else {
      assert (w + "\n" + s)[1..] == s;
    }
  }

  /** Text without a newline is one piece. */
  lemma {:induction false} SplitLinesSingle(w: string)
    requires '\n' !in w
    ensures SplitLines(w) == [w]
  {
    if w != [] {
      SplitLinesSingle(w[1..]);
      assert [w[0]] + w[1..] == w;
    }
  }

  /** Splitting a join of newline-free pieces gives back the pieces. */
  lemma {:induction false} SplitJoinLines(ls: seq<string>)
    requires |ls| >= 1
    requires forall k :: 0 <= k < |ls| ==> '\n' !in ls[k]
    ensures SplitLines(JoinLines(ls)) == ls
  {
    if |ls| == 1 {
      SplitLinesSingle(ls[0]);
    } else {
      SplitJoinLines(ls[1..]);
      SplitLinesPrefix(ls[0], JoinLines(ls[1..]));
      assert [ls[0]] + ls[1..] == ls;
    }
  }

  /** The concatenation of a sequence of strings. */
  function Concat(ws: seq<string>): string
  {
    if ws == [] then "" else ws[0] + Concat(ws[1..])
  }

  lemma {:induction false} ConcatAppend(xs: seq<string>, ys: seq<string>)
    ensures Concat(xs + ys) == Concat(xs) + Concat(ys)
  {
    if xs != [] {
      assert (xs + ys)[0] == xs[0] && (xs + ys)[1..] == xs[1..] + ys;
      ConcatAppend(xs[1..], ys);
    } else {
      assert xs + ys == ys;
    }
  }

  function DigitChar(d: int): (c: char)
    requires 0 <= d < 10
    ensures '0' <= c <= '9' && c as int - '0' as int == d
  {
    ('0' as int + d) as char
  }

  predicate AllDigits(s: string)
  {
    forall k :: 0 <= k < |s| ==> '0' <= s[k] <= '9'
  }

  /** The number a string of decimal digits denotes, most significant first. */
  function DigitsValue(s: string): nat
    requires AllDigits(s)
  {
    if s == [] then 0 else DigitsValue(s[..|s| - 1]) * 10 + (s[|s| - 1] as int - '0' as int)
  }

  /** The digits of n, without leading zeros, denoting n. */
  function NatDecimal(n: nat): (r: string)
    ensures |r| >= 1 && AllDigits(r) && DigitsValue(r) == n
    ensures n >= 1 ==> r[0] != '0'
    decreases n
  {
    if n < 10 then
      assert [DigitChar(n)][..0] == [];
      [DigitChar(n)]
    else
      var r := NatDecimal(n / 10) + [DigitChar(n % 10)];
      assert r[..|r| - 1] == NatDecimal(n / 10);
      r
  }

  /** strconv.Itoa: decimal digits denoting |n|, with a leading '-' exactly
      for negative numbers. */
  function Decimal(n: int): (r: string)
    ensures |r| >= 1
    ensures (r[0] == '-') <==> n < 0
    ensures n >= 0 ==> AllDigits(r) && DigitsValue(r) == n
    ensures n < 0 ==> AllDigits(r[1..]) && DigitsValue(r[1..]) == -n
    ensures |r| > 1 && r[0] != '-' ==> r[0] != '0'
    ensures n < 0 ==> |r| >= 2 && r[1] != '0'
  {
    if n < 0 then
      var r := "-" + NatDecimal(-n);
      assert r[1..] == NatDecimal(-n);
      r
    else NatDecimal(n)
  }

  /** Different numbers print differently, so the gutter numbers and the
      lc-N classes tell their rows apart. */
  lemma DecimalInjective(m: int, n: int)
    requires Decimal(m) == Decimal(n)
    ensures m == n
  {
    var r := Decimal(m);
    if m < 0 {
      assert n < 0;
      assert -m == DigitsValue(r[1..]) == -n;
    } else {
      assert n >= 0;
      assert m == DigitsValue(r) == n;
    }
  }
}
