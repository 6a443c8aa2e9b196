/** Text that is taken apart into lines, changed, and put together again. */
module TextLines {
  import opened Text

  predicate EndsWithNewline(s: string) {
    s != "" && s[|s| - 1] == '\n'
  }

  function ToText(lines: seq<string>, newline: bool): string {
    Join(lines, "\n") + if newline then "\n" else ""
  }

  predicate EndsWithCr(s: string) {
    s != "" && s[|s| - 1] == '\r'
  }

  /** Lines that `ToText` can turn into text without losing one. */
  ghost predicate Writable(lines: seq<string>, newline: bool) {
    && (forall k | 0 <= k < |lines| :: '\n' !in lines[k])
    && (newline ==> lines != [])
    && (!newline && lines != [] ==> lines[|lines| - 1] != "")
  }

  /** What becomes of the lines when the text is read again: a carriage return before a line feed is lost. */
  function Reread(lines: seq<string>, newline: bool): (r: seq<string>)
    ensures |r| == |lines|
    ensures forall k | 0 <= k < |r| :: r[k] == if newline || k < |lines| - 1 then StripCr(lines[k]) else lines[k]
  {
    seq(|lines|, k requires 0 <= k < |lines| => if newline || k < |lines| - 1 then StripCr(lines[k]) else lines[k])
  }

  lemma OneLineReads(line: string, newline: bool)
    requires Writable([line], newline)
    ensures Lines(ToText([line], newline)) == Reread([line], newline)
    ensures EndsWithNewline(ToText([line], newline)) == newline
  {
    hide StripCr;
    if newline {
      LinesStep(line, "");
      assert ToText([line], newline) == line + "\n" + "";
    } else {
      assert ToText([line], newline) == line;
      assert Lines(line) == [line];
    }
  }

  lemma TextSplits(lines: seq<string>, newline: bool)
    requires |lines| > 1
    ensures ToText(lines, newline) == lines[0] + "\n" + ToText(lines[1..], newline)
    ensures Reread(lines, newline) == [StripCr(lines[0])] + Reread(lines[1..], newline)
  {
    hide StripCr;
  }

  lemma EndOfConcat(a: string, b: string)
    requires b != ""
    ensures EndsWithNewline(a + b) == EndsWithNewline(b)
  {
  }

  lemma {:induction false} TextReads(lines: seq<string>, newline: bool)
    requires Writable(lines, newline)
    ensures Lines(ToText(lines, newline)) == Reread(lines, newline)
    ensures EndsWithNewline(ToText(lines, newline)) == newline
    decreases |lines|
  {
    if lines == [] {
      assert ToText(lines, newline) == "";
    } else if |lines| == 1 {
      assert lines == [lines[0]];
      OneLineReads(lines[0], newline);
    } else {
      hide ToText, Lines, StripCr, EndsWithNewline, Reread;
      var rest := lines[1..];
      assert rest[|rest| - 1] == lines[|lines| - 1];
      TextReads(rest, newline);
      TextNotEmpty(rest, newline);
      TextSplits(lines, newline);
      LinesStep(lines[0], ToText(rest, newline));
      EndOfConcat(lines[0] + "\n", ToText(rest, newline));
    }
  }

  lemma {:induction false} TextNotEmpty(lines: seq<string>, newline: bool)
    requires Writable(lines, newline) && lines != []
    ensures ToText(lines, newline) != ""
    decreases |lines|
  {
  }

  lemma {:induction false} JoinInjective(a: seq<string>, b: seq<string>)
    requires |a| == |b| && forall k | 0 <= k < |a| :: '\n' !in a[k] && '\n' !in b[k]
    requires Join(a, "\n") == Join(b, "\n")
    ensures a == b
    decreases |a|
  {
    if |a| > 1 {
      var text := Join(a, "\n");
      assert forall k | 0 <= k < |a[0]| :: text[k] == a[0][k];
      assert forall k | 0 <= k < |b[0]| :: text[k] == b[0][k];
      FindIs(text, '\n', |a[0]|);
      FindIs(text, '\n', |b[0]|);
      assert a[0] == text[..|a[0]|] == b[0];
      assert Join(a[1..], "\n") == text[|a[0]| + 1..] == Join(b[1..], "\n");
      JoinInjective(a[1..], b[1..]);
      assert a == [a[0]] + a[1..] && b == [b[0]] + b[1..];
    } else if |a| == 1 {
      assert a == [a[0]] && b == [b[0]];
    }
  }

  lemma {:induction false} LinesWritable(s: string)
    ensures Writable(Lines(s), EndsWithNewline(s))
    decreases |s|
  {
    if s == "" {
    } else {
      hide StripCr;
      match Find(s, '\n')
      case None =>
      case Some(i) =>
        var first, rest := StripCr(s[..i]), s[i + 1..];
        LinesWritable(rest);
        assert Lines(s) == [first] + Lines(rest) && '\n' !in first;
        hide Lines;
        if rest != "" {
          assert rest[|rest| - 1] == s[|s| - 1];
          LinesNotEmpty(rest);
        }
        assert rest == "" ==> Lines(rest) == [];
        WritableStep(first, Lines(rest), EndsWithNewline(s));
    }
  }

  lemma WritableStep(first: string, rest: seq<string>, newline: bool)
    requires '\n' !in first && if rest == [] then newline else Writable(rest, newline)
    ensures Writable([first] + rest, newline)
  {
    var lines := [first] + rest;
    assert rest != [] ==> lines[|lines| - 1] == rest[|rest| - 1];
  }

  lemma LinesNotEmpty(s: string)
    requires s != ""
    ensures Lines(s) != []
  {
  }

  lemma SameText(a: seq<string>, b: seq<string>, newline: bool)
    requires |a| == |b| && Writable(a, newline) && Writable(b, newline) && ToText(a, newline) == ToText(b, newline)
    ensures a == b
  {
    var x, y := ToText(a, newline), ToText(b, newline);
    if newline {
      assert Join(a, "\n") == x[..|x| - 1] == Join(b, "\n");
    } else {
      assert Join(a, "\n") == x && Join(b, "\n") == y;
    }
    JoinInjective(a, b);
  }
}
