/** Literal and folded block scalars: what their lines mean, and a round trip. */
module YamlLiteral {
  import opened Wrappers
  import opened Text
  import opened YamlScan
  import opened YamlBlock
  import opened YamlScalars
  import opened YamlPrint
  import opened YamlBlockRoundTrip
  import opened YamlDocuments

  // ---- collecting the lines -------------------------------------------

  /** A line of a scalar's text that can be told from a blank one. */
  predicate IsBodyLine(text: string) {
    text == "" || SkipSpaces(text) != ""
  }

  /** `l` is `text` written behind `base` spaces, or a blank line. */
  ghost predicate Shows(l: Line, text: string, base: nat) {
    && IsBodyLine(text)
    && l.raw == SkipSpaces(text)
    && (text != "" ==> l.indent == base + |text| - |SkipSpaces(text)|)
  }

  ghost predicate ShowsAll(lines: seq<Line>, texts: seq<string>, base: nat) {
    |texts| <= |lines| && forall k | 0 <= k < |texts| :: Shows(lines[k], texts[k], base)
  }

  /** The scalar ends here: the next line has content and is not deeper than the key. */
  predicate EndsScalar(rest: seq<Line>, keyIndent: nat) {
    rest == [] || (rest[0].raw != "" && rest[0].indent <= keyIndent)
  }

  /** The first line that is not blank starts without a space: it shows the base indentation. */
  predicate StartsAtBase(texts: seq<string>) {
    texts == [] || if texts[0] == "" then StartsAtBase(texts[1..]) else texts[0][0] != ' '
  }

  lemma SpacesInFront(text: string)
    ensures Spaces(|text| - |SkipSpaces(text)|) + SkipSpaces(text) == text
  {
    SkipSpacesSuffix(text);
  }

  lemma ShowsRest(lines: seq<Line>, texts: seq<string>, base: nat)
    requires ShowsAll(lines, texts, base) && texts != []
    ensures ShowsAll(lines[1..], texts[1..], base)
  {
    hide Shows;
    var rest, others := lines[1..], texts[1..];
    assert forall k | 0 <= k < |others| :: rest[k] == lines[k + 1] && others[k] == texts[k + 1];
  }

  /** One line of the scalar is collected as it was. */
  lemma CollectLine(
    text: string, lines: seq<Line>, keyIndent: nat, base: nat, known: Option<nat>, collected: seq<string>)
    requires lines != [] && Shows(lines[0], text, base) && base > keyIndent
    requires known == Some(base) || (known == None && (text != "" ==> text[0] != ' '))
    ensures CollectBlock(lines, keyIndent, known, collected)
      == CollectBlock(lines[1..], keyIndent, if text == "" then known else Some(base), collected + [text])
  {
    SpacesInFront(text);
    assert text != "" && known == None ==> SkipSpaces(text) == text;
  }

  /** Once the base indentation is known, or will be shown, every line is collected as it was. */
  lemma {:induction false} CollectReads(
    texts: seq<string>, lines: seq<Line>, keyIndent: nat, base: nat, known: Option<nat>, collected: seq<string>)
    requires ShowsAll(lines, texts, base) && base > keyIndent && EndsScalar(lines[|texts|..], keyIndent)
    requires known == Some(base) || (known == None && StartsAtBase(texts))
    ensures CollectBlock(lines, keyIndent, known, collected) == Ok((collected + texts, lines[|texts|..]))
    decreases |texts|
  {
    if texts == [] {
      assert lines[0..] == lines && collected + [] == collected;
    } else {
      var text := texts[0];
      var next := if text == "" then known else Some(base);
      hide SkipSpaces;
      ShowsRest(lines, texts, base);
      CollectLine(text, lines, keyIndent, base, known, collected);
      hide CollectBlock, Shows, EndsScalar;
      CollectReads(texts[1..], lines[1..], keyIndent, base, next, collected + [text]);
      assert collected + [text] + texts[1..] == collected + texts;
    }
  }

  lemma {:induction false} CollectGrows(lines: seq<Line>, keyIndent: nat, known: Option<nat>, collected: seq<string>)
    requires CollectBlock(lines, keyIndent, known, collected).Ok?
    ensures collected <= CollectBlock(lines, keyIndent, known, collected).value.0
    decreases |lines|
  {
    if lines == [] {
    } else {
      if lines[0].raw == "" {
        CollectGrows(lines[1..], keyIndent, known, collected + [""]);
      } else if lines[0].indent > keyIndent {
        var base := if known.Some? then known.value else lines[0].indent;
        CollectGrows(lines[1..], keyIndent, Some(base), collected + [Spaces(lines[0].indent - base) + lines[0].raw]);
      }
    }
  }

  /** A first line that is indented further loses its spaces. */
  lemma {:induction false} CollectLoses(
    texts: seq<string>, lines: seq<Line>, keyIndent: nat, base: nat, collected: seq<string>)
    requires ShowsAll(lines, texts, base) && base > keyIndent && !StartsAtBase(texts)
    ensures var r := CollectBlock(lines, keyIndent, None, collected);
      r.Ok? ==> !(collected + texts <= r.value.0)
    decreases |texts|
  {
    var r := CollectBlock(lines, keyIndent, None, collected);
    if r.Ok? {
      var text := texts[0];
      var taken := collected + [SkipSpaces(text)];
      if text == "" {
        ShowsRest(lines, texts, base);
        CollectLoses(texts[1..], lines[1..], keyIndent, base, taken);
        assert taken + texts[1..] == collected + texts;
      } else {
        assert Spaces(0) + lines[0].raw == lines[0].raw;
        CollectGrows(lines[1..], keyIndent, Some(lines[0].indent), taken);
        assert r.value.0[|collected|] == taken[|collected|] == SkipSpaces(text) != text;
        assert (collected + texts)[|collected|] == text;
      }
    }
  }

  /** The lines of a scalar are collected as they are if and only if the first one with content shows the indentation. */
  lemma CollectsExactly(texts: seq<string>, lines: seq<Line>, keyIndent: nat, base: nat)
    requires ShowsAll(lines, texts, base) && base > keyIndent && EndsScalar(lines[|texts|..], keyIndent)
    ensures CollectBlock(lines, keyIndent, None, []) == Ok((texts, lines[|texts|..])) <==> StartsAtBase(texts)
  {
    assert [] + texts == texts;
    if StartsAtBase(texts) {
      CollectReads(texts, lines, keyIndent, base, None, []);
    } else {
      CollectLoses(texts, lines, keyIndent, base, []);
    }
  }

  // ---- chomping and folding -------------------------------------------

  /** Every line with its line break. */
  function Terminated(lines: seq<string>): string {
    if lines == [] then "" else lines[0] + "\n" + Terminated(lines[1..])
  }

  lemma {:induction false} JoinTerminated(lines: seq<string>)
    requires lines != []
    ensures Join(lines, "\n") + "\n" == Terminated(lines)
    decreases |lines|
  {
    if |lines| == 1 {
      assert lines[1..] == [] && lines[0] + "\n" + "" == lines[0] + "\n";
    } else {
      JoinTerminated(lines[1..]);
    }
  }

  lemma {:induction false} TerminatedConcat(a: seq<string>, b: seq<string>)
    ensures Terminated(a + b) == Terminated(a) + Terminated(b)
    decreases |a|
  {
    if a == [] {
      assert a + b == b;
    } else {
      assert (a + b)[1..] == a[1..] + b;
      TerminatedConcat(a[1..], b);
    }
  }

  lemma {:induction false} BlankTerminated(lines: seq<string>)
    requires forall k | 0 <= k < |lines| :: lines[k] == ""
    ensures Terminated(lines) == Newlines(|lines|)
    decreases |lines|
  {
    if lines == [] {
    } else {
      BlankTerminated(lines[1..]);
    }
  }

  lemma {:induction false} ContentLengthIs(lines: seq<string>)
    ensures var n := ContentLength(lines);
      && (forall k | n <= k < |lines| :: lines[k] == "")
      && (n > 0 ==> lines[n - 1] != "")
    decreases |lines|
  {
    if lines != [] && lines[|lines| - 1] == "" {
      ContentLengthIs(lines[..|lines| - 1]);
    }
  }

  /**
   Chomping a literal scalar that is not blank: keeping gives all lines with
   their line breaks, clipping those up to the last one with content, and
   stripping the same without the last line break.
   */
  lemma LiteralText(lines: seq<string>)
    requires ContentLength(lines) > 0
    ensures BlockText(lines, false, Keep) == Terminated(lines)
    ensures BlockText(lines, false, Clip) == Terminated(lines[..ContentLength(lines)])
    ensures BlockText(lines, false, Strip) + "\n" == Terminated(lines[..ContentLength(lines)])
  {
    var n := ContentLength(lines);
    var content, blank := lines[..n], lines[n..];
    ContentLengthIs(lines);
    JoinTerminated(content);
    BlankTerminated(blank);
    TerminatedConcat(content, blank);
    assert content + blank == lines;
    JoinEnds(content);
  }

  lemma {:induction false} JoinEnds(lines: seq<string>)
    requires lines != [] && lines[|lines| - 1] != ""
    ensures Join(lines, "\n") != ""
    decreases |lines|
  {
  }

  /** A blank literal scalar: keeping gives one line break more than it has lines, otherwise nothing. */
  lemma BlankText(lines: seq<string>)
    requires ContentLength(lines) == 0
    ensures BlockText(lines, false, Keep) == Newlines(|lines| + 1)
    ensures BlockText(lines, false, Clip) == BlockText(lines, false, Strip) == ""
  {
    hide ContentLength;
    assert lines[..0] == [] && Join([], "\n") == "";
    assert "" + "\n" + Newlines(|lines|) == Newlines(|lines| + 1);
  }

  lemma FoldLine(content: seq<string>, prevBlank: bool)
    requires content != [] && content[0] != ""
    ensures Fold(content, prevBlank) == (if prevBlank then "" else " ") + content[0] + Fold(content[1..], false)
  {
  }

  lemma FoldBlank(content: seq<string>, prevBlank: bool)
    requires content == [] || content[0] == ""
    ensures Fold(content, prevBlank) == if content == [] then "" else "\n" + Fold(content[1..], true)
  {
  }

  lemma FoldBehindLine(content: seq<string>)
    ensures Fold(content, false)
      == if content != [] && content[0] != "" then " " + Fold(content, true) else Fold(content, true)
  {
    hide Fold;
    if content != [] && content[0] != "" {
      FoldLine(content, false);
      FoldLine(content, true);
      var first, rest := content[0], Fold(content[1..], false);
      assert " " + first + rest == " " + ("" + first + rest);
    } else {
      FoldBlank(content, false);
      FoldBlank(content, true);
    }
  }

  /** Folding joins the lines of a paragraph by spaces; each blank line is a line break. */
  lemma {:induction false} FoldParagraph(paragraph: seq<string>, rest: seq<string>)
    requires paragraph != [] && forall k | 0 <= k < |paragraph| :: paragraph[k] != ""
    ensures Fold(paragraph + rest, true)
      == Join(paragraph, " ") + if rest != [] && rest[0] != "" then " " + Fold(rest, true) else Fold(rest, true)
    decreases |paragraph|
  {
    hide Fold;
    var all := paragraph + rest;
    assert all[0] == paragraph[0] && all[1..] == paragraph[1..] + rest;
    FoldLine(all, true);
    FoldBehindLine(all[1..]);
    if |paragraph| == 1 {
      assert paragraph[1..] + rest == rest;
    } else {
      FoldParagraph(paragraph[1..], rest);
      assert all[1..][0] == paragraph[1];
    }
  }

  // ---- lines of blanks ------------------------------------------------

  /** What is left of a line: one of blanks only is empty. */
  function Unblanked(text: string): string {
    if IsBodyLine(text) then text else ""
  }

  function AllUnblanked(texts: seq<string>): (r: seq<string>)
    ensures |r| == |texts| && forall k | 0 <= k < |r| :: r[k] == Unblanked(texts[k])
  {
    seq(|texts|, k requires 0 <= k < |texts| => Unblanked(texts[k]))
  }

  /** No line consists of blanks only. */
  predicate AreBodyLines(texts: seq<string>) {
    forall k | 0 <= k < |texts| :: IsBodyLine(texts[k])
  }

  lemma UnblankedIsSame(texts: seq<string>)
    ensures AllUnblanked(texts) == texts <==> AreBodyLines(texts)
  {
  }

  /** Every blank line is collected as an empty one. */
  lemma {:induction false} CollectBlanks(lines: seq<Line>, keyIndent: nat, known: Option<nat>, collected: seq<string>)
    requires forall k | 0 <= k < |lines| :: lines[k].raw == "" || lines[k].indent > keyIndent
    requires CollectBlock(lines, keyIndent, known, collected).Ok?
    ensures var r := CollectBlock(lines, keyIndent, known, collected).value;
      && |r.0| == |collected| + |lines| && r.1 == []
      && forall k | 0 <= k < |lines| && lines[k].raw == "" :: r.0[|collected| + k] == ""
    decreases |lines|
  {
    if lines == [] {
    } else {
      var base := if known.Some? then known.value else lines[0].indent;
      var blank := lines[0].raw == "";
      var next := collected + [if blank then "" else Spaces(lines[0].indent - base) + lines[0].raw];
      var more := if blank then known else Some(base);
      CollectBlanks(lines[1..], keyIndent, more, next);
      CollectGrows(lines[1..], keyIndent, more, next);
      var r := CollectBlock(lines, keyIndent, known, collected).value;
      assert r.0[|collected|] == next[|collected|];
      forall k | 1 <= k < |lines| && lines[k].raw == ""
        ensures r.0[|collected| + k] == ""
      {
        assert lines[1..][k - 1] == lines[k];
        assert r.0[|next| + (k - 1)] == "";
      }
    }
  }

  /** Two texts of lines are the same exactly if the lines are. */
  lemma {:induction false} TerminatedInjective(a: seq<string>, b: seq<string>)
    requires forall k | 0 <= k < |a| :: '\n' !in a[k]
    requires forall k | 0 <= k < |b| :: '\n' !in b[k]
    requires Terminated(a) == Terminated(b)
    ensures a == b
    decreases |a|
  {
    if a == [] || b == [] {
    } else {
      var text := Terminated(a);
      FirstLine(a);
      FirstLine(b);
      assert a[0] == text[..|a[0]|] && b[0] == text[..|b[0]|];
      assert Terminated(a[1..]) == text[|a[0]| + 1..] == Terminated(b[1..]);
      TerminatedInjective(a[1..], b[1..]);
      assert a == [a[0]] + a[1..] && b == [b[0]] + b[1..];
    }
  }

  lemma FirstLine(lines: seq<string>)
    requires lines != [] && '\n' !in lines[0]
    ensures Find(Terminated(lines), '\n') == Some(|lines[0]|)
    ensures Terminated(lines)[..|lines[0]|] == lines[0]
    ensures Terminated(lines)[|lines[0]| + 1..] == Terminated(lines[1..])
  {
    var text := Terminated(lines);
    assert text == lines[0] + "\n" + Terminated(lines[1..]);
    hide Terminated;
    assert forall k | 0 <= k < |lines[0]| :: text[k] == lines[0][k];
    FindIs(text, '\n', |lines[0]|);
  }

  /** Kept lines give the text of other lines only if they are the same, and not blank. */
  lemma KeptTextIs(lines: seq<string>, texts: seq<string>)
    requires |lines| == |texts|
    requires forall k | 0 <= k < |lines| :: '\n' !in lines[k]
    requires forall k | 0 <= k < |texts| :: '\n' !in texts[k]
    ensures BlockText(lines, false, Keep) == Terminated(texts) <==> lines == texts && ContentLength(texts) > 0
  {
    hide BlockText, Terminated, ContentLength;
    if ContentLength(lines) > 0 {
      LiteralText(lines);
      if Terminated(lines) == Terminated(texts) {
        TerminatedInjective(lines, texts);
      }
    } else {
      BlankText(lines);
      var blank := seq(|lines| + 1, _ => "");
      BlankTerminated(blank);
      if Terminated(blank) == Terminated(texts) {
        TerminatedInjective(blank, texts);
      }
    }
  }

  // ---- a document -----------------------------------------------------

  /** A line that the line reader accepts and ends where it was ended. */
  predicate Readable(text: string) {
    && '\n' !in text
    && (text != "" ==> text[|text| - 1] != '\r')
    && (SkipSpaces(text) != "" ==> SkipSpaces(text)[0] != '\t')
  }

  predicate AllReadable(texts: seq<string>) {
    forall k | 0 <= k < |texts| :: Readable(texts[k])
  }

  function BodyLine(text: string): string {
    if text == "" then "" else "  " + text
  }

  function BodyText(texts: seq<string>): string {
    if texts == [] then "" else BodyLine(texts[0]) + "\n" + BodyText(texts[1..])
  }

  /** The indicators of a block scalar. */
  function Header(folded: bool, chomp: Chomp): string {
    (if folded then ">" else "|") + match chomp case Clip => "" case Strip => "-" case Keep => "+"
  }

  /** One entry whose value is a block scalar. */
  function ScalarDocument(key: Scalar, folded: bool, chomp: Chomp, texts: seq<string>): string {
    ScalarText(key) + (":" + (" " + Header(folded, chomp))) + "\n" + BodyText(texts)
  }

  lemma BodyLineReads(text: string, no: nat)
    requires Readable(text)
    ensures '\n' !in BodyLine(text) && StripCr(BodyLine(text)) == BodyLine(text)
    ensures ReadLine(BodyLine(text), no).Ok? && Shows(ReadLine(BodyLine(text), no).value, Unblanked(text), 2)
  {
    var line := BodyLine(text);
    if text != "" {
      assert line[1..] == " " + text && (" " + text)[1..] == text;
      assert SkipSpaces(line) == SkipSpaces(" " + text) == SkipSpaces(text);
      assert line[|line| - 1] == text[|text| - 1];
    }
  }

  lemma ShowsMore(l: Line, text: string, lines: seq<Line>, texts: seq<string>, base: nat)
    requires Shows(l, text, base) && ShowsAll(lines, texts, base)
    ensures ShowsAll([l] + lines, [text] + texts, base)
  {
    hide Shows;
  }

  lemma {:induction false} BodyReads(texts: seq<string>, no: nat)
    requires AllReadable(texts)
    ensures var lines := ReadLines(Lines(BodyText(texts)), no);
      lines.Ok? && |lines.value| == |texts| && ShowsAll(lines.value, AllUnblanked(texts), 2)
    decreases |texts|
  {
    hide ReadLine, StripCr, Shows, Readable, BodyLine, Unblanked;
    if texts == [] {
    } else {
      var line, rest := BodyLine(texts[0]), Lines(BodyText(texts[1..]));
      BodyLineReads(texts[0], no);
      LinesStep(line, BodyText(texts[1..]));
      BodyReads(texts[1..], no + 1);
      hide Lines, BodyText;
      BodyStep(texts, line, rest, no);
    }
  }

  lemma BodyStep(texts: seq<string>, line: string, rest: seq<string>, no: nat)
    requires texts != [] && ReadLine(line, no).Ok? && Shows(ReadLine(line, no).value, Unblanked(texts[0]), 2)
    requires ReadLines(rest, no + 1).Ok? && |ReadLines(rest, no + 1).value| == |texts| - 1
    requires ShowsAll(ReadLines(rest, no + 1).value, AllUnblanked(texts[1..]), 2)
    ensures ReadLines([line] + rest, no).Ok? && |ReadLines([line] + rest, no).value| == |texts|
    ensures ShowsAll(ReadLines([line] + rest, no).value, AllUnblanked(texts), 2)
  {
    hide ReadLine, ReadLines, Shows, ShowsAll, Unblanked;
    ReadLinesStep(line, rest, no);
    ShowsMore(
      ReadLine(line, no).value, Unblanked(texts[0]), ReadLines(rest, no + 1).value, AllUnblanked(texts[1..]), 2);
    assert [Unblanked(texts[0])] + AllUnblanked(texts[1..]) == AllUnblanked(texts);
  }

  lemma HeaderShape(folded: bool, chomp: Chomp)
    ensures var header := Header(folded, chomp);
      && header != "" && HeaderChomp(header) == (chomp, "") && (header[0] == '>' <==> folded)
      && header[0] in {'|', '>'} && IsLineText(header)
  {
    var header := Header(folded, chomp);
    assert |header| == 1 || header[2..] == "";
    assert |header| == 1 ==> header[1..] == "";
    CalmOnLine(header);
  }

  lemma HeadReads(key: Scalar, folded: bool, chomp: Chomp)
    requires IsKey(key)
    ensures var line := ScalarText(key) + (":" + (" " + Header(folded, chomp)));
      && '\n' !in line && StripCr(line) == line && line != ""
      && ReadLine(line, 1).Ok? && Says(ReadLine(line, 1).value, Row(0, line)) && ReadLine(line, 1).value.no == 1
      && SplitKey(line, 1) == Ok(Some((key.text, Header(folded, chomp)))) && !IsMarker(line) && !IsItem(line)
      && line[0] != '%'
  {
    var header := Header(folded, chomp);
    HeaderShape(folded, chomp);
    KeyIsLineText(key);
    var e := Entry(key, None, Plain(header));
    hide IsLineText, SplitKey, ScalarText, ReadLine, StripCr, Header, IsMarker, IsItem, IsKey;
    KeyTextOnLine(ScalarText(key), header);
    KeyHead(e, 0);
    NoWhiteAhead(header);
    KeySplits(key, header, 1);
    var line := ScalarText(key) + (":" + (" " + header));
    LineHasNoNewline(line);
    TextLine(line, 1);
  }

  lemma NoWhiteAhead(text: string)
    requires IsLineText(text)
    ensures text != "" && !IsWhite(text[0])
  {
  }

  lemma LineHasNoNewline(text: string)
    requires IsLineText(text)
    ensures '\n' !in text
  {
  }

  /** Under each header what is collected is folded and chomped as the header says. */
  lemma HeaderReads(folded: bool, chomp: Chomp, keyIndent: nat, no: nat, lines: seq<Line>, anchors: Anchors)
    ensures ParseValueAfterKey(Header(folded, chomp), keyIndent, no, lines, anchors)
      == match CollectBlock(lines, keyIndent, None, [])
         case Ok((collected, rest)) => Ok(Out(String(BlockText(collected, folded, chomp)), rest, anchors))
         case Err(e) => Err(e)
  {
    HeaderShape(folded, chomp);
    assert Trim("") == "";
    hide CollectBlock, BlockText, Header, HeaderChomp, IsLineText;
  }

  /** A document of one entry has the value of the entry, or its error. */
  lemma EntryParses(head: Line, key: string, text: string, lines: seq<Line>)
    requires key != "<<" && head.indent == 0 && head.text != "" && head.text[0] != '%'
    requires !IsMarker(head.text) && !IsItem(head.text)
    requires SplitKey(head.text, head.no) == Ok(Some((key, text)))
    requires var r := ParseValueAfterKey(text, 0, head.no, lines, map[]); r.Ok? ==> r.value.rest == []
    ensures ParseDocument([head] + lines)
      == match ParseValueAfterKey(text, 0, head.no, lines, map[])
         case Ok(out) => Ok(Object(map[key := out.value]))
         case Err(e) => Err(e)
  {
    hide ParseValueAfterKey, SplitKey, ParseEntries, IsItem;
    var all := [head] + lines;
    assert all[0] == head && all[1..] == lines;
    assert SkipBlank(all) == all;
    assert ParseNode(all, 0, map[]) == ParseEntries(all, 0, map[], map[], map[]);
    match ParseValueAfterKey(text, 0, head.no, lines, map[])
    case Ok(out) =>
      EntryStep(all, 0, map[], map[], map[], key, text, out);
      EntriesEnd(0, [], map[key := out.value], map[], out.anchors);
      assert map[] + map[key := out.value] == map[][key := out.value] == map[key := out.value];
    case Err(e) =>
      EntryFails(all, 0, map[], map[], map[], key, text, e);
  }

  lemma EntryFails(
    lines: seq<Line>, indent: nat, own: map<string, Value>, merged: map<string, Value>, anchors: Anchors,
    key: string, text: string, e: Error)
    requires var r := SkipBlank(lines);
      && r != [] && r[0].indent == indent && !IsMarker(r[0].text)
      && SplitKey(r[0].text, r[0].no) == Ok(Some((key, text)))
      && ParseValueAfterKey(text, indent, r[0].no, r[1..], anchors) == Err(e)
    ensures ParseEntries(lines, indent, own, merged, anchors) == Err(e)
  {
    hide ParseValueAfterKey, SplitKey, SkipBlank;
  }

  /** What the document parses to: the text of the lines that are collected. */
  lemma DocumentReads(key: Scalar, folded: bool, chomp: Chomp, texts: seq<string>) returns (lines: seq<Line>)
    requires IsKey(key) && key.text != "<<" && AllReadable(texts)
    ensures |lines| == |texts| && ShowsAll(lines, AllUnblanked(texts), 2)
    ensures FromStr(ScalarDocument(key, folded, chomp, texts))
      == match CollectBlock(lines, 0, None, [])
         case Ok((collected, _)) => Ok(Object(map[key.text := String(BlockText(collected, folded, chomp))]))
         case Err(e) => Err(e)
  {
    hide ParseDocument, ReadLine, Lines, ParseValueAfterKey, SplitKey, StripCr, CollectBlock, IsMarker, IsItem;
    hide BlockText, BodyText, ScalarText, Readable, Unblanked, Header, IsKey;
    var line, body := ScalarText(key) + (":" + (" " + Header(folded, chomp))), BodyText(texts);
    HeadReads(key, folded, chomp);
    LinesStep(line, body);
    BodyReads(texts, 2);
    var head := ReadLine(line, 1).value;
    lines := ReadLines(Lines(body), 2).value;
    ReadLinesStep(line, Lines(body), 1);
    HeaderReads(folded, chomp, 0, 1, lines, map[]);
    AllCollected(lines, AllUnblanked(texts));
    EntryParses(head, key.text, Header(folded, chomp), lines);
  }

  lemma AllCollected(lines: seq<Line>, texts: seq<string>)
    requires |lines| == |texts| && ShowsAll(lines, texts, 2)
    ensures forall k | 0 <= k < |lines| :: lines[k].raw == "" || lines[k].indent > 0
    ensures var r := CollectBlock(lines, 0, None, []);
      r.Ok? ==> && |r.value.0| == |texts| && r.value.1 == []
                && forall k | 0 <= k < |texts| && lines[k].raw == "" :: r.value.0[k] == ""
  {
    hide CollectBlock;
    assert forall k | 0 <= k < |lines| :: Shows(lines[k], texts[k], 2);
    if CollectBlock(lines, 0, None, []).Ok? {
      CollectBlanks(lines, 0, None, []);
    }
  }

  /**
   The lines are collected as they were exactly if none is of blanks only and
   the first with content shows the indentation.
   */
  lemma DocumentCollects(texts: seq<string>, lines: seq<Line>)
    requires |lines| == |texts| && ShowsAll(lines, AllUnblanked(texts), 2)
    ensures StartsAtBase(AllUnblanked(texts)) ==> CollectBlock(lines, 0, None, []) == Ok((AllUnblanked(texts), []))
    ensures CollectBlock(lines, 0, None, []) == Ok((texts, [])) <==> AreBodyLines(texts) && StartsAtBase(texts)
  {
    var kept := AllUnblanked(texts);
    hide CollectBlock, StartsAtBase, Unblanked;
    assert lines[|kept|..] == [];
    CollectsExactly(kept, lines, 0, 2);
    AllCollected(lines, kept);
    UnblankedIsSame(texts);
    if CollectBlock(lines, 0, None, []) == Ok((texts, [])) {
      forall k | 0 <= k < |texts|
        ensures kept[k] == texts[k]
      {
        BlankRaw(lines[k], texts[k]);
      }
    }
  }

  lemma BlankRaw(l: Line, text: string)
    requires Shows(l, Unblanked(text), 2)
    ensures Unblanked(text) == text || l.raw == ""
    ensures l.raw == "" ==> Unblanked(text) == ""
  {
  }

  /** The lines that are collected hold no line break. */
  lemma {:induction false} CollectedFit(lines: seq<Line>, keyIndent: nat, known: Option<nat>, collected: seq<string>)
    requires forall k | 0 <= k < |lines| :: '\n' !in lines[k].raw
    requires forall k | 0 <= k < |collected| :: '\n' !in collected[k]
    requires CollectBlock(lines, keyIndent, known, collected).Ok?
    ensures var r := CollectBlock(lines, keyIndent, known, collected).value.0;
      forall k | 0 <= k < |r| :: '\n' !in r[k]
    decreases |lines|
  {
    if lines == [] {
    } else if lines[0].raw == "" {
      CollectedFit(lines[1..], keyIndent, known, collected + [""]);
    } else if lines[0].indent > keyIndent {
      var base := if known.Some? then known.value else lines[0].indent;
      CollectedFit(lines[1..], keyIndent, Some(base), collected + [Spaces(lines[0].indent - base) + lines[0].raw]);
    }
  }

  lemma RawFits(l: Line, text: string)
    requires Shows(l, Unblanked(text), 2) && '\n' !in text
    ensures '\n' !in l.raw
  {
    SkipSpacesSuffix(text);
  }

  lemma DocumentFits(texts: seq<string>, lines: seq<Line>)
    requires |lines| == |texts| && ShowsAll(lines, AllUnblanked(texts), 2) && AllReadable(texts)
    ensures var r := CollectBlock(lines, 0, None, []);
      r.Ok? ==> |r.value.0| == |texts| && r.value.1 == [] && forall k | 0 <= k < |texts| :: '\n' !in r.value.0[k]
  {
    hide CollectBlock, Shows, Unblanked;
    forall k | 0 <= k < |lines|
      ensures '\n' !in lines[k].raw
    {
      RawFits(lines[k], texts[k]);
    }
    AllCollected(lines, AllUnblanked(texts));
    if CollectBlock(lines, 0, None, []).Ok? {
      CollectedFit(lines, 0, None, []);
    }
  }

  lemma SameEntry(key: string, a: string, b: string)
    ensures Object(map[key := String(a)]) == Object(map[key := String(b)]) <==> a == b
  {
    if a != b {
      assert map[key := String(a)][key] != map[key := String(b)][key];
    }
  }

  /** What a text is collected as, and when that is the text. */
  lemma TextCollects(key: Scalar, folded: bool, chomp: Chomp, texts: seq<string>) returns (r: Result<seq<string>, Error>)
    requires IsKey(key) && key.text != "<<" && AllReadable(texts)
    ensures FromStr(ScalarDocument(key, folded, chomp, texts))
      == match r
         case Ok(collected) => Ok(Object(map[key.text := String(BlockText(collected, folded, chomp))]))
         case Err(e) => Err(e)
    ensures r == Ok(texts) <==> AreBodyLines(texts) && StartsAtBase(texts)
    ensures r.Ok? ==> |r.value| == |texts| && forall k | 0 <= k < |texts| :: '\n' !in r.value[k]
    ensures StartsAtBase(AllUnblanked(texts)) ==> r == Ok(AllUnblanked(texts))
  {
    hide CollectBlock, FromStr, ScalarDocument, BlockText, StartsAtBase, AreBodyLines, ShowsAll, AllUnblanked, IsKey;
    var lines := DocumentReads(key, folded, chomp, texts);
    DocumentCollects(texts, lines);
    DocumentFits(texts, lines);
    match CollectBlock(lines, 0, None, [])
    case Ok((collected, rest)) =>
      r := Ok(collected);
      assert r == Ok(texts) <==> CollectBlock(lines, 0, None, []) == Ok((texts, []));
    case Err(e) => r := Err(e);
  }

  /**
   A text written as a literal scalar is parsed back to itself, trailing
   blank lines included, if and only if its first line with content is not
   indented further, it has such a line, and no line is of blanks only.
   */
  lemma LiteralRoundTripExactly(key: Scalar, texts: seq<string>)
    requires IsKey(key) && key.text != "<<" && AllReadable(texts)
    ensures FromStr(ScalarDocument(key, false, Keep, texts)) == Ok(Object(map[key.text := String(Terminated(texts))]))
      <==> StartsAtBase(texts) && ContentLength(texts) > 0 && AreBodyLines(texts)
  {
    hide FromStr, ScalarDocument, BlockText, Terminated, StartsAtBase, ContentLength, AreBodyLines, AllUnblanked, IsKey;
    var r := TextCollects(key, false, Keep, texts);
    if r.Ok? {
      SameEntry(key.text, BlockText(r.value, false, Keep), Terminated(texts));
      KeptTextIs(r.value, texts);
    }
  }

  /** Clipped lines give the text of other lines only if they are the same, and none is blank at the end. */
  lemma ClippedTextIs(lines: seq<string>, texts: seq<string>)
    requires |lines| == |texts|
    requires forall k | 0 <= k < |lines| :: '\n' !in lines[k]
    requires forall k | 0 <= k < |texts| :: '\n' !in texts[k]
    ensures BlockText(lines, false, Clip) == Terminated(texts) <==> lines == texts && ContentLength(texts) == |texts|
  {
    var content := lines[..ContentLength(lines)];
    hide BlockText, ContentLength;
    if ContentLength(lines) > 0 {
      LiteralText(lines);
    } else {
      BlankText(lines);
    }
    assert content == [] ==> Terminated(content) == "";
    if Terminated(content) == Terminated(texts) {
      TerminatedInjective(content, texts);
    }
  }

  /** With clipping, if and only if besides that it has no blank lines at its end. */
  lemma ClippedRoundTripExactly(key: Scalar, texts: seq<string>)
    requires IsKey(key) && key.text != "<<" && AllReadable(texts)
    ensures FromStr(ScalarDocument(key, false, Clip, texts)) == Ok(Object(map[key.text := String(Terminated(texts))]))
      <==> StartsAtBase(texts) && ContentLength(texts) == |texts| && AreBodyLines(texts)
  {
    hide FromStr, ScalarDocument, BlockText, Terminated, StartsAtBase, ContentLength, AreBodyLines, AllUnblanked, IsKey;
    var r := TextCollects(key, false, Clip, texts);
    if r.Ok? {
      SameEntry(key.text, BlockText(r.value, false, Clip), Terminated(texts));
      ClippedTextIs(r.value, texts);
    }
  }

  lemma StrippedTextIs(lines: seq<string>, texts: seq<string>)
    requires |lines| == |texts| && ContentLength(texts) == |texts| > 0
    requires forall k | 0 <= k < |lines| :: '\n' !in lines[k]
    requires forall k | 0 <= k < |texts| :: '\n' !in texts[k]
    ensures BlockText(lines, false, Strip) == Join(texts, "\n") <==> lines == texts
  {
    var content := lines[..ContentLength(lines)];
    JoinTerminated(texts);
    ContentLengthIs(texts);
    JoinEnds(texts);
    hide BlockText, ContentLength, Join;
    if ContentLength(lines) > 0 {
      LiteralText(lines);
      if BlockText(lines, false, Strip) == Join(texts, "\n") {
        TerminatedInjective(content, texts);
      }
      if lines == texts {
        assert content == texts;
        SameLineBreak(BlockText(lines, false, Strip), Join(texts, "\n"));
      }
    } else {
      BlankText(lines);
    }
  }

  lemma SameLineBreak(a: string, b: string)
    requires a + "\n" == b + "\n"
    ensures a == b
  {
    assert a == (a + "\n")[..|a|] && b == (b + "\n")[..|b|];
  }

  /** With stripping, a text without line break at its end is parsed back, if its last line has content. */
  lemma StrippedRoundTripExactly(key: Scalar, texts: seq<string>)
    requires IsKey(key) && key.text != "<<" && AllReadable(texts) && ContentLength(texts) == |texts| > 0
    ensures FromStr(ScalarDocument(key, false, Strip, texts)) == Ok(Object(map[key.text := String(Join(texts, "\n"))]))
      <==> StartsAtBase(texts) && AreBodyLines(texts)
  {
    hide FromStr, ScalarDocument, BlockText, Join, StartsAtBase, ContentLength, AreBodyLines, AllUnblanked, IsKey;
    var r := TextCollects(key, false, Strip, texts);
    if r.Ok? {
      SameEntry(key.text, BlockText(r.value, false, Strip), Join(texts, "\n"));
      StrippedTextIs(r.value, texts);
    }
  }

  /** A text whose lines of blanks become empty is what the document parses to if it starts at the base indentation. */
  lemma ScalarParses(key: Scalar, folded: bool, chomp: Chomp, texts: seq<string>)
    requires IsKey(key) && key.text != "<<" && AllReadable(texts) && StartsAtBase(AllUnblanked(texts))
    ensures FromStr(ScalarDocument(key, folded, chomp, texts))
      == Ok(Object(map[key.text := String(BlockText(AllUnblanked(texts), folded, chomp))]))
  {
    hide FromStr, ScalarDocument, BlockText, AllUnblanked, StartsAtBase, IsKey, AreBodyLines;
    var r := TextCollects(key, folded, chomp, texts);
  }

  // ---- folded paragraphs ----------------------------------------------

  /** Paragraphs of lines with an empty line between each two. */
  function Paragraphs(paragraphs: seq<seq<string>>): seq<string> {
    if |paragraphs| == 0 then []
    else if |paragraphs| == 1 then paragraphs[0]
    else paragraphs[0] + ([""] + Paragraphs(paragraphs[1..]))
  }

  /** Each paragraph on one line. */
  function Unfolded(paragraphs: seq<seq<string>>): (r: seq<string>)
    ensures |r| == |paragraphs|
  {
    if paragraphs == [] then [] else [Join(paragraphs[0], " ")] + Unfolded(paragraphs[1..])
  }

  ghost predicate AreParagraphs(paragraphs: seq<seq<string>>) {
    forall i | 0 <= i < |paragraphs| ::
      paragraphs[i] != [] && forall k | 0 <= k < |paragraphs[i]| :: paragraphs[i][k] != ""
  }

  /** Folding makes one line of each paragraph. */
  lemma {:induction false} FoldText(paragraphs: seq<seq<string>>)
    requires AreParagraphs(paragraphs) && paragraphs != []
    ensures Fold(Paragraphs(paragraphs), true) == Join(Unfolded(paragraphs), "\n")
    decreases |paragraphs|
  {
    var first, rest := paragraphs[0], paragraphs[1..];
    assert Unfolded(paragraphs)[0] == Join(first, " ") && Unfolded(paragraphs)[1..] == Unfolded(rest);
    if |paragraphs| == 1 {
      FoldParagraph(first, []);
      assert first + [] == first;
      FoldBlank([], true);
    } else {
      hide Fold, Unfolded, AreParagraphs;
      assert AreParagraphs(rest) by {
        RestAreParagraphs(paragraphs);
      }
      FoldText(rest);
      var more := [""] + Paragraphs(rest);
      assert more[1..] == Paragraphs(rest);
      FirstParagraph(paragraphs);
      FoldParagraph(first, more);
      FoldBlank(more, true);
    }
  }

  lemma {:induction false} RestAreParagraphs(paragraphs: seq<seq<string>>)
    requires AreParagraphs(paragraphs) && paragraphs != []
    ensures AreParagraphs(paragraphs[1..])
  {
  }

  lemma {:induction false} FirstParagraph(paragraphs: seq<seq<string>>)
    requires AreParagraphs(paragraphs) && paragraphs != []
    ensures paragraphs[0] != [] && forall k | 0 <= k < |paragraphs[0]| :: paragraphs[0][k] != ""
  {
  }

  lemma {:induction false} ParagraphsAreContent(paragraphs: seq<seq<string>>)
    requires AreParagraphs(paragraphs) && paragraphs != []
    ensures var lines := Paragraphs(paragraphs);
      lines != [] && lines[0] == paragraphs[0][0] != "" && lines[|lines| - 1] != "" && ContentLength(lines) == |lines|
    decreases |paragraphs|
  {
    FirstParagraph(paragraphs);
    if |paragraphs| <= 1 {
    } else {
      RestAreParagraphs(paragraphs);
      ParagraphsAreContent(paragraphs[1..]);
    }
  }

  lemma {:induction false} UnfoldedText(paragraphs: seq<seq<string>>)
    requires AreParagraphs(paragraphs) && paragraphs != []
    ensures Join(Unfolded(paragraphs), "\n") != ""
  {
    FirstParagraph(paragraphs);
    JoinNotEmpty(paragraphs[0], " ");
    assert Unfolded(paragraphs)[0] == Join(paragraphs[0], " ");
    JoinNotEmpty(Unfolded(paragraphs), "\n");
  }

  lemma JoinNotEmpty(parts: seq<string>, separator: string)
    requires parts != [] && parts[0] != ""
    ensures Join(parts, separator) != ""
  {
  }

  /** What the chomping adds to text that does not end in a blank line. */
  function Ending(chomp: Chomp): string {
    if chomp == Strip then "" else "\n"
  }

  lemma FoldedIs(lines: seq<string>, text: string, chomp: Chomp)
    requires ContentLength(lines) == |lines| && Fold(lines, true) == text != ""
    ensures BlockText(lines, true, chomp) == text + Ending(chomp)
  {
    assert lines[..|lines|] == lines;
    hide Fold, ContentLength;
    assert text + "\n" + "" == text + "\n" && Newlines(0) == "";
  }

  /** Paragraphs written as a folded scalar are parsed to one line each. */
  lemma FoldedParagraphs(key: Scalar, chomp: Chomp, paragraphs: seq<seq<string>>)
    requires IsKey(key) && key.text != "<<" && AreParagraphs(paragraphs) && paragraphs != []
    requires var texts := Paragraphs(paragraphs);
      AllReadable(texts) && AreBodyLines(texts) && texts[0][0] != ' '
    ensures FromStr(ScalarDocument(key, true, chomp, Paragraphs(paragraphs)))
      == Ok(Object(map[key.text := String(Join(Unfolded(paragraphs), "\n") + Ending(chomp))]))
  {
    hide FromStr, ScalarDocument, BlockText, Fold, AreBodyLines, IsKey, AllReadable, Unfolded, Ending, AreParagraphs;
    var texts := Paragraphs(paragraphs);
    ParagraphsAreContent(paragraphs);
    hide Paragraphs;
    FoldText(paragraphs);
    UnfoldedText(paragraphs);
    FoldedIs(texts, Join(Unfolded(paragraphs), "\n"), chomp);
    assert StartsAtBase(texts);
    var r := TextCollects(key, true, chomp, texts);
  }

  /** A header with a digit, or with anything else behind its indicators, is refused. */
  lemma HeaderFails(
    folded: bool, chomp: Chomp, rest: string, keyIndent: nat, no: nat, lines: seq<Line>, anchors: Anchors)
    requires rest != "" && !IsWhite(rest[0]) && (chomp == Clip ==> rest[0] != '-' && rest[0] != '+')
    ensures ParseValueAfterKey(Header(folded, chomp) + rest, keyIndent, no, lines, anchors)
      == Err(Error(no, if '0' <= rest[0] <= '9' then BlockIndentDigit else ContentAfterBlockHeader))
  {
    var header := Header(folded, chomp);
    var all := header + rest;
    HeaderShape(folded, chomp);
    assert all[0] == header[0] && |header| <= 2;
    assert |header| == 1 ==> all[1..] == rest && all[1] == rest[0];
    assert |header| == 2 ==> all[2..] == rest && all[1] == header[1];
    hide CollectBlock, IsLineText, IsWhite;
    assert HeaderChomp(all) == (chomp, rest);
    assert TrimStart(rest) == rest;
    TrimKeeps(rest);
  }

  lemma {:induction false} TrimKeeps(s: string)
    requires s != "" && !IsWhite(s[0])
    ensures TrimEnd(s) != ""
    decreases |s|
  {
    if IsWhite(s[|s| - 1]) {
      TrimKeeps(s[..|s| - 1]);
    }
  }

  // ---- texts that change ----------------------------------------------

  lemma LostText()
    ensures AllReadable(["a", "  ", "b"]) && StartsAtBase(AllUnblanked(["a", "  ", "b"]))
    ensures BlockText(AllUnblanked(["a", "  ", "b"]), false, Keep) == "a\n\nb\n"
    ensures Terminated(["a", "  ", "b"]) == "a\n  \nb\n"
  {
    var texts := ["a", "  ", "b"];
    assert AllUnblanked(texts) == ["a", "", "b"];
    LiteralText(["a", "", "b"]);
    hide BlockText, ContentLength;
    assert texts[1..] == ["  ", "b"] && texts[1..][1..] == ["b"];
    assert ["a", "", "b"][1..] == ["", "b"] && ["", "b"][1..] == ["b"];
    assert Terminated(["b"]) == "b\n";
  }

  /** Two blanks on a line of their own are lost. */
  lemma BlanksAreLost(key: Scalar)
    requires IsKey(key) && key.text != "<<"
    ensures FromStr(ScalarDocument(key, false, Keep, ["a", "  ", "b"])) == Ok(Object(map[key.text := String("a\n\nb\n")]))
    ensures Terminated(["a", "  ", "b"]) == "a\n  \nb\n"
  {
    hide *;
    LostText();
    ScalarParses(key, false, Keep, ["a", "  ", "b"]);
  }

  lemma GrownText()
    ensures AllReadable([""]) && StartsAtBase(AllUnblanked([""]))
    ensures BlockText(AllUnblanked([""]), false, Keep) == "\n\n"
    ensures Terminated([""]) == "\n"
  {
    assert AllUnblanked([""]) == [""];
    BlankText([""]);
    hide BlockText;
    assert Newlines(2) == "\n\n";
    assert [""][1..] == [] && Terminated([]) == "";
  }

  /** An empty line becomes two. */
  lemma BlankTextGrows(key: Scalar)
    requires IsKey(key) && key.text != "<<"
    ensures FromStr(ScalarDocument(key, false, Keep, [""])) == Ok(Object(map[key.text := String("\n\n")]))
    ensures Terminated([""]) == "\n"
  {
    hide *;
    GrownText();
    ScalarParses(key, false, Keep, [""]);
  }

  /** The indentation of a first line is taken for that of the scalar. */
  lemma IndentedTextFails(key: Scalar)
    requires IsKey(key) && key.text != "<<"
    ensures FromStr(ScalarDocument(key, false, Keep, [" a"])) != Ok(Object(map[key.text := String(Terminated([" a"]))]))
  {
    assert !StartsAtBase([" a"]);
    hide FromStr, ScalarDocument, StartsAtBase, IsKey;
    LiteralRoundTripExactly(key, [" a"]);
  }
}
