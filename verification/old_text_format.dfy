/** delta/formatter/text.go: the earlier ColoredText. It writes each line of
    d.Raw() (the solution's own lines) into a growing buffer with the same
    per-line rendering as the later formatter. */
module OldTextFormat {
  import opened Wrappers
  import opened Solution
  import TextFormat
  import Seqs

  /** The buffer loop as written; it produces the later formatter's output,
      so everything proved about that output holds for this one too. */
  method ColoredText(d: DiffSolution) returns (buf: string)
    ensures buf == TextFormat.ColoredText(d)
    ensures TextFormat.SingleLines(d) ==> TextFormat.Parse(buf) == Some(TextFormat.Shown(d))
  {
    buf := "";
    var i := 0;
    while i < |d|
      invariant i <= |d|
      invariant buf == TextFormat.ColoredText(d[..i])
      decreases |d| - i
    {
      var l := d[i];
      var out := WriteLine(l);
      OneLine(d, i, buf, out);
      buf := buf + out;
      i := i + 1;
    }
    assert d[..i] == d;
    if TextFormat.SingleLines(d) {
      TextFormat.ParseColoredText(d);
    }
  }

  /** One iteration's writes to the buffer. */
  method WriteLine(l: Line) returns (out: string)
    ensures out == TextFormat.RenderLine(l)
  {
    out := "";
    if l.src == Both && l.left == l.right {
      out := " " + l.left + " \n";
    } else {
      if l.left != "" {
        out := TextFormat.DelStart + l.left + TextFormat.Reset + "\n";
      }
      if l.right != "" {
        out := out + TextFormat.AddStart + l.right + TextFormat.Reset + "\n";
      }
    }
  }

  lemma OneLine(d: DiffSolution, i: nat, buf: string, out: string)
    requires i < |d|
    requires buf == TextFormat.ColoredText(d[..i]) && out == TextFormat.RenderLine(d[i])
    ensures buf + out == TextFormat.ColoredText(d[..i + 1])
  {
    var done := d[..i];
    Seqs.TakeSnoc(d, i);
    TextFormat.ColoredTextAppend(done, [d[i]]);
    TextFormat.ColoredTextSingle(d[i]);
  }
}
