/** Whole documents: what is written between, in front of and behind the rows does not matter. */
module YamlDocuments {
  import opened Wrappers
  import opened Text
  import opened YamlScan
  import opened YamlBlock
  import opened YamlMerge
  import opened YamlScalars
  import opened YamlPrint
  import opened YamlFlowRoundTrip
  import opened YamlFlowText
  import opened YamlBlockRoundTrip

  // ---- rows are lines -------------------------------------------------

  lemma BehindBlank(n: nat, text: string, tail: string)
    requires Crossed(text) && n > 0
    ensures Kept(Spaces(n) + text + tail, false, OUTSIDE) == n + |text| + Kept(tail, false, OUTSIDE)
  {
    hide Kept;
    SpacesKept(n, text + tail, false);
    assert Spaces(n) + text + tail == Spaces(n) + (text + tail);
  }

  lemma {:induction false} SpacesKept(n: nat, tail: string, atBreak: bool)
    ensures Kept(Spaces(n) + tail, atBreak, OUTSIDE) == n + Kept(tail, atBreak || n > 0, OUTSIDE)
    decreases n
  {
    if n == 0 {
      assert Spaces(0) + tail == tail;
    } else {
      assert (Spaces(n) + tail)[1..] == Spaces(n - 1) + tail;
      SpacesKept(n - 1, tail, true);
    }
  }

  /** Two texts on a line. */
  lemma TextsOnLine(a: string, n: nat, b: string)
    requires IsLineText(a) && IsLineText(b) && n > 0
    ensures IsLineText(a + (Spaces(n) + b))
  {
    var text := a + (Spaces(n) + b);
    assert text[|text| - 1] == b[|b| - 1] && text[0] == a[0];
    forall tail: string
      ensures Kept(text + tail, true, OUTSIDE) == |text| + Kept(tail, false, OUTSIDE)
    {
      hide Kept, IsWhite;
      BehindBlank(n, b, tail);
      assert text + tail == a + (Spaces(n) + b + tail);
      assert Kept(a + (Spaces(n) + b + tail), true, OUTSIDE) == |a| + Kept(Spaces(n) + b + tail, false, OUTSIDE);
    }
  }

  lemma CharOnLine(a: string, c: char)
    requires IsLineText(a) && !IsWhite(c) && c !in {'\'', '"', '#'}
    ensures IsLineText(a + [c])
  {
    var text := a + [c];
    forall tail: string
      ensures Kept(text + tail, true, OUTSIDE) == |text| + Kept(tail, false, OUTSIDE)
    {
      assert text + tail == a + ([c] + tail) && ([c] + tail)[1..] == tail;
      assert Kept(a + ([c] + tail), true, OUTSIDE) == |a| + Kept([c] + tail, false, OUTSIDE);
    }
  }

  lemma CalmOnLine(text: string)
    requires IsCalm(text) && !IsWhite(text[0]) && '\n' !in text
    ensures IsLineText(text)
  {
    QuoteFreeCrossed(text);
  }

  lemma QuotedOnLine(s: Scalar)
    requires match s.style case Bare => false case Single => '\n' !in s.text case Double => true
    ensures IsLineText(ScalarText(s))
  {
    var text := ScalarText(s);
    ScalarFits(s, "");
    assert text + "" == text;
    forall tail: string
      ensures Kept(text + tail, true, OUTSIDE) == |text| + Kept(tail, false, OUTSIDE)
    {
      ScalarCrosses(s, tail, true, 0, 0);
    }
  }

  lemma InlineOnLine(t: Tree)
    requires IsInline(t) && t.Valid()
    ensures IsLineText(Inline(t))
  {
    hide IsLineText;
    match t
    case Leaf(j) => FlowIsLineText(j);
    case Plain(text) => assert IsBlockPlain(text);
    case Spread(_, _, _) =>
  }

  lemma AnchoredOnLine(name: string, inline: string)
    requires IsName(name) && (inline == "" || IsLineText(inline))
    ensures IsLineText("&" + (name + if inline == "" then "" else " " + inline))
  {
    hide *;
    AnchorOnLine(name);
    if inline == "" {
      assert "&" + (name + "") == "&" + name;
    } else {
      TextsOnLine("&" + name, 1, inline);
      assert Spaces(1) == " ";
      assert "&" + (name + (" " + inline)) == "&" + name + (" " + inline);
    }
  }

  lemma ValueOnLine(e: Entry)
    requires IsEntry(e) && e.tree.Valid() && ValueText(e) != ""
    ensures IsLineText(ValueText(e))
  {
    InlineHead(e.tree);
    if IsInline(e.tree) {
      InlineOnLine(e.tree);
    }
    hide IsLineText, Inline;
    if e.anchor.Some? {
      AnchoredOnLine(e.anchor.value, Inline(e.tree));
    }
  }

  lemma AnchorOnLine(name: string)
    requires IsName(name)
    ensures IsLineText("&" + name)
  {
    NameIsCalm(name);
    var text := "&" + name;
    assert forall i | 0 < i < |text| :: text[i] == name[i - 1] && name[i - 1] in name;
    CalmOnLine(text);
  }

  lemma KeyTextOnLine(key: string, value: string)
    requires IsLineText(key) && (value == "" || IsLineText(value))
    ensures IsLineText(key + (":" + if value == "" then "" else " " + value))
  {
    hide IsLineText;
    CharOnLine(key, ':');
    if value == "" {
      assert key + (":" + "") == key + [':'];
    } else {
      TextsOnLine(key + [':'], 1, value);
      assert Spaces(1) == " ";
      assert key + (":" + (" " + value)) == key + [':'] + (" " + value);
    }
  }

  lemma KeyIsLineText(key: Scalar)
    requires IsKey(key)
    ensures IsLineText(ScalarText(key))
  {
    if !key.style.Bare? {
      QuotedOnLine(key);
    }
  }

  lemma KeyOnLine(e: Entry, indent: nat)
    requires IsEntry(e) && e.tree.Valid()
    ensures IsLineText(KeyRow(e, indent).text)
  {
    KeyIsLineText(e.key);
    if ValueText(e) != "" {
      ValueOnLine(e);
    }
    hide IsLineText, ValueText, ScalarText;
    KeyTextOnLine(ScalarText(e.key), ValueText(e));
  }

  ghost predicate AreLineTexts(rows: seq<Row>) {
    forall i | 0 <= i < |rows| :: IsLineText(rows[i].text)
  }

  lemma DashOnLine(rows: seq<Row>, compact: bool, step: nat, indent: nat)
    requires AreLineTexts(rows) && step > 0
    ensures AreLineTexts(Dash(rows, compact, step, indent))
  {
    hide IsLineText;
    DashIsText();
    if compact && rows != [] {
      TextsOnLine("-", step, rows[0].text);
    }
  }

  lemma DashIsText()
    ensures IsLineText("-")
  {
    CalmOnLine("-");
  }

  lemma {:induction false} RowsOnLines(t: Tree, indent: nat)
    requires t.Valid()
    ensures AreLineTexts(Rows(t, indent))
    decreases t, 1
  {
    hide IsLineText;
    match t
    case Empty =>
    case Leaf(_) => InlineOnLine(t);
    case Plain(_) => InlineOnLine(t);
    case Spread(_, _, _) => InlineOnLine(t);
    case Sequence(items, compact, step) => ItemRowsOnLines(items, compact, step, indent);
    case Mapping(entries, step) => EntryRowsOnLines(entries, step, indent);
  }

  lemma {:induction false} ItemRowsOnLines(items: seq<Tree>, compact: bool, step: nat, indent: nat)
    requires step > 0 && forall i | 0 <= i < |items| :: items[i].Valid()
    ensures AreLineTexts(ItemRows(items, compact, step, indent))
    decreases items, 0
  {
    hide IsLineText;
    if items == [] {
    } else {
      var own := Rows(items[0], indent + Offset(compact, step));
      RowsOnLines(items[0], indent + Offset(compact, step));
      DashOnLine(own, compact, step, indent);
      ItemRowsOnLines(items[1..], compact, step, indent);
    }
  }

  lemma BelowOnLines(e: Entry, step: nat, indent: nat)
    requires IsEntry(e) && e.tree.Valid()
    ensures AreLineTexts(Below(e, step, indent))
    decreases e, 0
  {
    hide IsLineText;
    BelowIs(e, step, indent);
    if e.tree.Spread? {
    } else {
      RowsOnLines(e.tree, indent + step);
    }
  }

  lemma {:induction false} EntryRowsOnLines(entries: seq<Entry>, step: nat, indent: nat)
    requires forall i | 0 <= i < |entries| :: IsEntry(entries[i]) && entries[i].tree.Valid()
    ensures AreLineTexts(EntryRows(entries, step, indent))
    decreases entries, 0
  {
    hide IsLineText, KeyRow, Below;
    if entries == [] {
    } else {
      KeyOnLine(entries[0], indent);
      BelowOnLines(entries[0], step, indent);
      EntryRowsOnLines(entries[1..], step, indent);
    }
  }

  // ---- one source line ------------------------------------------------

  lemma {:induction false} NoteKept(s: string, i: nat, n: nat, atBreak: bool)
    requires IsNoteAt(s, n) && i <= n && (i > 0 ==> atBreak == IsBlank(s[i - 1]))
    ensures Kept(s[i..], atBreak, OUTSIDE) == n - i
    decreases n - i
  {
    if i < n {
      var rest := s[i..];
      assert IsWhite(s[i]) && rest[0] == s[i] && rest[1..] == s[i + 1..];
      NoteKept(s, i + 1, n, IsBlank(s[i]));
    } else if n < |s| {
      assert s[i..][0] == '#';
    }
  }

  lemma {:induction false} TrimEndWhite(text: string, white: string)
    requires text != "" && !IsWhite(text[|text| - 1])
    requires forall i | 0 <= i < |white| :: IsWhite(white[i])
    ensures TrimEnd(text + white) == text
    decreases |white|
  {
    var all := text + white;
    if white == "" {
      assert all == text;
    } else {
      var n := |white| - 1;
      assert all[..|all| - 1] == text + white[..n] && all[|all| - 1] == white[n];
      TrimEndWhite(text, white[..n]);
    }
  }

  lemma CrossedOn(text: string, tail: string)
    requires Crossed(text)
    ensures Kept(text + tail, true, OUTSIDE) == |text| + Kept(tail, false, OUTSIDE)
  {
    hide Kept;
  }

  lemma NoteKeeps(text: string, note: string, n: nat)
    requires Crossed(text) && IsNoteAt(note, n)
    ensures Kept(text + note, true, OUTSIDE) == |text| + n
  {
    CrossedOn(text, note);
    NoteKept(note, 0, n, false);
    assert note[0..] == note;
  }

  /** What is kept of a text and the note behind it is the text. */
  lemma NoteGoes(text: string, note: string)
    requires IsLineText(text) && IsNote(note)
    ensures var line := text + note; TrimEnd(line[..Kept(line, true, OUTSIDE)]) == text
  {
    var n: nat :| IsNoteAt(note, n);
    assert forall i | 0 <= i < n :: IsWhite(note[i]);
    hide Kept, Crossed, IsWhite, TrimEnd;
    NoteKeeps(text, note, n);
    hide IsNoteAt;
    assert (text + note)[..|text| + n] == text + note[..n];
    TrimEndWhite(text, note[..n]);
  }

  lemma {:induction false} IndentedSkips(n: nat, text: string)
    requires text != "" && text[0] != ' '
    ensures SkipSpaces(Spaces(n) + text) == text
  {
    SpacesSkip(n, text);
    assert SkipSpaces(text) == text;
  }

  lemma CutNote(note: string)
    requires IsNote(note) && note != ""
    ensures IsNote(note[..|note| - 1])
  {
    var n: nat :| IsNoteAt(note, n);
    var cut := note[..|note| - 1];
    assert IsNoteAt(cut, if n < |note| then n else |cut|);
  }

  /** The carriage return that may be cut off a row is one of its note. */
  lemma CrGoes(row: Row, note: string) returns (cut: string)
    requires IsLineText(row.text) && IsNote(note)
    ensures IsNote(cut) && StripCr(Spaces(row.indent) + (row.text + note)) == Spaces(row.indent) + (row.text + cut)
  {
    var line := Spaces(row.indent) + (row.text + note);
    hide IsNote;
    cut := note;
    if note == "" {
      assert line[|line| - 1] == row.text[|row.text| - 1];
    } else if note[|note| - 1] == '\r' {
      CutNote(note);
      cut := note[..|note| - 1];
      assert line[..|line| - 1] == Spaces(row.indent) + (row.text + cut);
    }
  }

  /** A row with its note is read as the row. */
  lemma RowReads(row: Row, note: string, no: nat)
    requires IsLineText(row.text) && IsNote(note)
    ensures var source := StripCr(Spaces(row.indent) + (row.text + note));
      ReadLine(source, no).Ok? && Says(ReadLine(source, no).value, row) && ReadLine(source, no).value.no == no
  {
    hide IsNote, StripCr, Kept, Crossed;
    var cut := CrGoes(row, note);
    var last := CrGoes(row, cut);
    var line, trimmed := Spaces(row.indent) + (row.text + last), row.text + last;
    assert trimmed[0] == row.text[0] && trimmed[0] != ' ' && trimmed[0] != '\t';
    IndentedSkips(row.indent, trimmed);
    NoteGoes(row.text, last);
  }

  lemma {:induction false} SpacesCut(s: string)
    requires s != "" && s[|s| - 1] == '\r'
    ensures var t := SkipSpaces(s); t != "" && t[|t| - 1] == '\r' && SkipSpaces(s[..|s| - 1]) == t[..|t| - 1]
  {
    if s[0] == ' ' {
      assert s[1..][..|s| - 2] == s[..|s| - 1][1..];
      SpacesCut(s[1..]);
    }
  }

  lemma CommentGoes(text: string)
    requires text != "" && text[0] == '#'
    ensures Kept(text, true, OUTSIDE) == 0
  {
  }

  lemma CutBlankLine(s: string)
    requires IsBlankLine(s)
    ensures IsBlankLine(StripCr(s))
  {
    if s != "" && s[|s| - 1] == '\r' {
      SpacesCut(s);
    }
  }

  /** A blank line, or a comment on a line of its own, is read as a line without text. */
  lemma BlankReads(s: string, no: nat)
    requires IsBlankLine(s)
    ensures ReadLine(StripCr(s), no).Ok? && ReadLine(StripCr(s), no).value.text == ""
  {
    CutBlankLine(s);
    CutBlankLine(StripCr(s));
    var line := StripCr(StripCr(s));
    var trimmed := SkipSpaces(line);
    hide SkipSpaces, StripCr;
    if trimmed != "" && trimmed[0] == '#' {
      CommentGoes(trimmed);
    } else if trimmed == "\r" {
      assert Kept("\r", true, OUTSIDE) == 1;
      assert TrimEnd("\r") == "";
    }
    assert TrimEnd("") == "";
  }

  // ---- all source lines -----------------------------------------------

  /** The lines that `Lines` gives. */
  function Stripped(sources: seq<string>): (r: seq<string>)
    ensures |r| == |sources|
  {
    if sources == [] then [] else [StripCr(sources[0])] + Stripped(sources[1..])
  }

  lemma {:induction false} StrippedConcat(a: seq<string>, b: seq<string>)
    ensures Stripped(a + b) == Stripped(a) + Stripped(b)
    decreases |a|
  {
    hide StripCr;
    if a == [] {
      assert a + b == b;
    } else {
      assert (a + b)[1..] == a[1..] + b;
      StrippedConcat(a[1..], b);
    }
  }

  lemma {:induction false} UnlinesRead(sources: seq<string>)
    requires forall i | 0 <= i < |sources| :: '\n' !in sources[i]
    ensures Lines(Unlines(sources)) == Stripped(sources)
    decreases |sources|
  {
    hide Lines, StripCr;
    if sources == [] {
      NoLines();
    } else {
      LinesStep(sources[0], Unlines(sources[1..]));
      UnlinesRead(sources[1..]);
    }
  }

  lemma NoLines()
    ensures Lines("") == []
  {
  }

  lemma ReadLinesStep(source: string, rest: seq<string>, no: nat)
    requires ReadLine(source, no).Ok? && ReadLines(rest, no + 1).Ok?
    ensures ReadLines([source] + rest, no) == Ok([ReadLine(source, no).value] + ReadLines(rest, no + 1).value)
  {
    hide ReadLine;
    assert ([source] + rest)[1..] == rest;
  }

  /** Blank lines in front of others. */
  lemma {:induction false} BlanksRead(blanks: seq<string>, rest: seq<string>, no: nat) returns (lines: seq<Line>)
    requires AreBlankLines(blanks) && ReadLines(rest, no + |blanks|).Ok?
    ensures ReadLines(Stripped(blanks) + rest, no) == Ok(lines)
    ensures SkipBlank(lines) == SkipBlank(ReadLines(rest, no + |blanks|).value)
    decreases |blanks|
  {
    hide ReadLine, StripCr, ReadLines, IsBlankLine;
    if blanks == [] {
      assert Stripped(blanks) + rest == rest;
      lines := ReadLines(rest, no).value;
    } else {
      var more := BlanksRead(blanks[1..], rest, no + 1);
      BlankReads(blanks[0], no);
      ReadLinesStep(StripCr(blanks[0]), Stripped(blanks[1..]) + rest, no);
      assert Stripped(blanks) + rest == [StripCr(blanks[0])] + (Stripped(blanks[1..]) + rest);
      lines := [ReadLine(StripCr(blanks[0]), no).value] + more;
      assert lines[1..] == more;
    }
  }

  lemma StartsWith(lines: seq<Line>, line: Line, rest: seq<Line>, row: Row, rows: seq<Row>)
    requires SkipBlank(lines) == SkipBlank([line] + rest)
    requires line.text != "" && Says(line, row) && Starts(rest, rows)
    ensures Starts(lines, [row] + rows) && After(lines, [row] + rows) == After(rest, rows)
  {
    var all := [line] + rest;
    assert SkipBlank(all) == all && all[1..] == rest && ([row] + rows)[1..] == rows;
  }

  function OwnSource(d: Dressed): string {
    Spaces(d.row.indent) + (d.row.text + d.note)
  }

  lemma FrontStripped(above: seq<string>, own: string, more: seq<string>, tail: seq<string>)
    ensures Stripped(above + ([own] + more)) + tail == Stripped(above) + ([StripCr(own)] + (Stripped(more) + tail))
  {
    hide StripCr;
    StrippedConcat(above, [own] + more);
    assert ([own] + more)[1..] == more;
    assert Stripped([own] + more) == [StripCr(own)] + Stripped(more);
    hide *;
    var a, b, c := Stripped(above), [StripCr(own)], Stripped(more);
    assert a + (b + c) + tail == a + (b + (c + tail));
  }

  lemma FirstSources(rows: seq<Dressed>, tail: seq<string>)
    requires rows != []
    ensures var d, rest := rows[0], Stripped(SourceLines(rows[1..])) + tail;
      Stripped(SourceLines(rows)) + tail == Stripped(d.above) + ([StripCr(OwnSource(d))] + rest)
    ensures |SourceLines(rows)| == |rows[0].above| + 1 + |SourceLines(rows[1..])|
    ensures Undressed(rows) == [rows[0].row] + Undressed(rows[1..])
  {
    hide StripCr, Spaces, Stripped;
    var d, more := rows[0], SourceLines(rows[1..]);
    assert SourceLines(rows) == d.above + ([OwnSource(d)] + more);
    hide SourceLines;
    FrontStripped(d.above, OwnSource(d), more, tail);
  }

  lemma {:induction false} UndressedAt(rows: seq<Dressed>, i: nat)
    requires i < |rows|
    ensures Undressed(rows)[i] == rows[i].row
  {
    if i == 0 {
    } else {
      UndressedAt(rows[1..], i - 1);
    }
  }

  lemma {:induction false} TextsDressed(rows: seq<Dressed>)
    requires rows != [] && AreLineTexts(Undressed(rows))
    ensures IsLineText(rows[0].row.text) && AreLineTexts(Undressed(rows[1..]))
  {
    hide IsLineText;
    var rest := rows[1..];
    UndressedAt(rows, 0);
    forall i | 0 <= i < |rest|
      ensures IsLineText(Undressed(rest)[i].text)
    {
      UndressedAt(rows, i + 1);
      UndressedAt(rest, i);
    }
  }

  lemma FirstDressed(rows: seq<Dressed>)
    requires rows != [] && AreDressed(rows) && AreLineTexts(Undressed(rows))
    ensures AreBlankLines(rows[0].above) && IsNote(rows[0].note) && IsLineText(rows[0].row.text)
    ensures AreDressed(rows[1..]) && AreLineTexts(Undressed(rows[1..]))
  {
    hide IsNote, IsLineText, AreBlankLines, AreLineTexts;
    TextsDressed(rows);
  }

  /** A row in front of others. */
  lemma FirstReads(d: Dressed, rest: seq<string>, no: nat, rows: seq<Row>) returns (lines: seq<Line>)
    requires AreBlankLines(d.above) && IsNote(d.note) && IsLineText(d.row.text)
    requires ReadLines(rest, no + |d.above| + 1).Ok? && Starts(ReadLines(rest, no + |d.above| + 1).value, rows)
    ensures ReadLines(Stripped(d.above) + ([StripCr(OwnSource(d))] + rest), no) == Ok(lines)
    ensures Starts(lines, [d.row] + rows)
    ensures After(lines, [d.row] + rows) == After(ReadLines(rest, no + |d.above| + 1).value, rows)
  {
    hide ReadLine, StripCr, ReadLines, AreBlankLines, IsNote, IsLineText, Starts, After, Says, SkipBlank;
    var k := no + |d.above|;
    RowReads(d.row, d.note, k);
    var line := ReadLine(StripCr(OwnSource(d)), k).value;
    ReadLinesStep(StripCr(OwnSource(d)), rest, k);
    lines := BlanksRead(d.above, [StripCr(OwnSource(d))] + rest, no);
    LineTextIs(d.row, line);
    StartsWith(lines, line, ReadLines(rest, k + 1).value, d.row, rows);
  }

  /** The source of the rows is read to lines that start with the rows, whatever lines follow. */
  lemma {:induction false} SourcesRead(rows: seq<Dressed>, tail: seq<string>, no: nat) returns (lines: seq<Line>)
    requires AreDressed(rows) && AreLineTexts(Undressed(rows))
    requires ReadLines(tail, no + |SourceLines(rows)|).Ok?
    ensures ReadLines(Stripped(SourceLines(rows)) + tail, no) == Ok(lines)
    ensures Starts(lines, Undressed(rows))
    ensures After(lines, Undressed(rows)) == ReadLines(tail, no + |SourceLines(rows)|).value
    decreases |rows|
  {
    hide ReadLines, AreDressed, AreLineTexts, Starts, After;
    if rows == [] {
      lines := ReadLines(tail, no).value;
      assert Stripped([]) + tail == tail;
      NothingStarts(lines);
    } else {
      hide *;
      FirstDressed(rows);
      FirstSources(rows, tail);
      var more := SourcesRead(rows[1..], tail, no + |rows[0].above| + 1);
      lines := FirstReads(rows[0], Stripped(SourceLines(rows[1..])) + tail, no, Undressed(rows[1..]));
    }
  }

  lemma NothingStarts(lines: seq<Line>)
    ensures Starts(lines, []) && After(lines, []) == lines
  {
  }

  lemma LineTextIs(row: Row, line: Line)
    requires IsLineText(row.text) && Says(line, row)
    ensures line.text != ""
  {
  }

  // ---- documents ------------------------------------------------------

  /** What the document parser makes of the lines behind a document. */
  function Finished(value: Value, rest: seq<Line>): Result<Value, Error> {
    var r := SkipBlank(rest);
    if r == [] then Ok(value)
    else Err(Error(r[0].no, if r[0].text == "---" then MultiDocument else UnexpectedContent))
  }

  /** What follows the marker that may end the document. */
  function BehindEnd(rest: seq<Line>): seq<Line> {
    var r := SkipBlank(rest);
    if r != [] && r[0].text == "..." then r[1..] else rest
  }

  function Body(lines: seq<Line>): seq<Line> {
    var r := SkipBlank(lines);
    if r != [] && r[0].text == "---" then r[1..] else lines
  }

  lemma DocumentSteps(lines: seq<Line>)
    requires SkipBlank(lines) != [] && SkipBlank(lines)[0].text[0] != '%'
    ensures ParseDocument(lines)
      == match ParseNode(Body(lines), 0, map[])
         case Ok(out) => Finished(out.value, BehindEnd(out.rest))
         case Err(e) => Err(e)
  {
    hide ParseNode, SkipBlank;
  }

  lemma EndStarts(rest: seq<Line>, end: bool)
    requires Starts(rest, EndRows(end))
    requires var u := SkipBlank(After(rest, EndRows(end))); u == [] || end || (u[0].indent == 0 && u[0].text == "---")
    ensures Stops(rest, 0) && BehindEnd(rest) == After(rest, EndRows(end))
  {
  }

  lemma BodyParses(t: Tree, indent: nat, end: bool, body: seq<Line>)
    requires t.Valid() && Resolves(t, map[]) && !t.Empty?
    requires Starts(body, Rows(t, indent) + EndRows(end))
    requires var u := SkipBlank(After(body, Rows(t, indent) + EndRows(end)));
      u == [] || end || (u[0].indent == 0 && u[0].text == "---")
    ensures var out := ParseNode(body, 0, map[]);
      && out.Ok? && out.value.value == TreeValue(t, map[]).0
      && BehindEnd(out.value.rest) == After(body, Rows(t, indent) + EndRows(end))
  {
    hide *;
    StartsSplit(body, Rows(t, indent), EndRows(end));
    EndStarts(After(body, Rows(t, indent)), end);
    NodeReads(t, indent, body, 0, map[]);
  }

  lemma BodyStarts(t: Tree, indent: nat, start: bool, end: bool, lines: seq<Line>)
    requires t.Valid() && !t.Empty? && Starts(lines, DocumentRows(t, indent, start, end))
    ensures SkipBlank(lines) != [] && SkipBlank(lines)[0].text[0] != '%'
    ensures Starts(Body(lines), Rows(t, indent) + EndRows(end))
    ensures After(Body(lines), Rows(t, indent) + EndRows(end)) == After(lines, DocumentRows(t, indent, start, end))
  {
    hide Rows, EndRows;
    var rows, all := Rows(t, indent) + EndRows(end), DocumentRows(t, indent, start, end);
    RowsHead(t, indent);
    assert if start then all[0].text == "---" && all[1..] == rows else all == rows && all[0] == Rows(t, indent)[0];
  }

  /** A document between its markers is parsed to its value, or refused for what stands behind it. */
  lemma DocumentParses(t: Tree, indent: nat, start: bool, end: bool, lines: seq<Line>)
    requires t.Valid() && Resolves(t, map[]) && !t.Empty?
    requires Starts(lines, DocumentRows(t, indent, start, end))
    requires var u := SkipBlank(After(lines, DocumentRows(t, indent, start, end)));
      u == [] || end || (u[0].indent == 0 && u[0].text == "---")
    ensures ParseDocument(lines)
      == Finished(TreeValue(t, map[]).0, After(lines, DocumentRows(t, indent, start, end)))
  {
    hide *;
    BodyStarts(t, indent, start, end, lines);
    BodyParses(t, indent, end, Body(lines));
    DocumentSteps(lines);
  }

  lemma MarkersOnLines()
    ensures IsLineText("---") && IsLineText("...")
  {
    CalmOnLine("---");
    CalmOnLine("...");
  }

  lemma DocumentOnLines(t: Tree, indent: nat, start: bool, end: bool)
    requires t.Valid()
    ensures AreLineTexts(DocumentRows(t, indent, start, end))
  {
    hide IsLineText, Rows;
    RowsOnLines(t, indent);
    MarkersOnLines();
  }

  lemma NoteHasNoNewline(row: Row, note: string)
    requires IsLineText(row.text) && IsNote(note)
    ensures '\n' !in Spaces(row.indent) + (row.text + note)
  {
  }

  ghost predicate AreLines(sources: seq<string>) {
    forall i | 0 <= i < |sources| :: '\n' !in sources[i]
  }

  lemma {:induction false} SourcesAreLines(rows: seq<Dressed>)
    requires AreDressed(rows) && AreLineTexts(Undressed(rows))
    ensures AreLines(SourceLines(rows))
    decreases |rows|
  {
    hide IsLineText, IsNote, AreDressed, AreLineTexts;
    if rows == [] {
    } else {
      var d := rows[0];
      FirstDressed(rows);
      SourcesAreLines(rows[1..]);
      NoteHasNoNewline(d.row, d.note);
      assert forall i | 0 <= i < |d.above| :: IsBlankLine(d.above[i]);
    }
  }

  /** The text of a document and what follows it is parsed as the lines that are read from it. */
  lemma TextParses(t: Tree, indent: nat, start: bool, end: bool, rows: seq<Dressed>, tail: seq<string>)
    requires t.Valid() && Resolves(t, map[]) && !t.Empty?
    requires AreDressed(rows) && Undressed(rows) == DocumentRows(t, indent, start, end)
    requires AreLines(tail) && ReadLines(Stripped(tail), 1 + |SourceLines(rows)|).Ok?
    requires var u := SkipBlank(ReadLines(Stripped(tail), 1 + |SourceLines(rows)|).value);
      u == [] || end || (u[0].indent == 0 && u[0].text == "---")
    ensures FromStr(Unlines(SourceLines(rows) + tail))
      == Finished(TreeValue(t, map[]).0, ReadLines(Stripped(tail), 1 + |SourceLines(rows)|).value)
  {
    hide *;
    var text := Unlines(SourceLines(rows) + tail);
    DocumentOnLines(t, indent, start, end);
    SourcesAreLines(rows);
    AreLinesConcat(SourceLines(rows), tail);
    UnlinesRead(SourceLines(rows) + tail);
    StrippedConcat(SourceLines(rows), tail);
    var lines := SourcesRead(rows, Stripped(tail), 1);
    DocumentParses(t, indent, start, end, lines);
    FromLines(text, lines);
  }

  /**
   Every tree is parsed back to exactly its value from its rows, at any
   indentation, with or without document markers, with any blank lines and
   comments on lines of their own between them, and with blanks, comments and
   carriage returns at their ends.
   */
  lemma BlockRoundTrip(t: Tree, indent: nat, start: bool, end: bool, rows: seq<Dressed>, blanks: seq<string>)
    requires t.Valid() && Resolves(t, map[]) && !t.Empty?
    requires AreDressed(rows) && Undressed(rows) == DocumentRows(t, indent, start, end) && AreBlankLines(blanks)
    ensures FromStr(Unlines(SourceLines(rows) + blanks)) == Ok(TreeValue(t, map[]).0)
  {
    hide *;
    var no := 1 + |SourceLines(rows)|;
    var lines := BlankTail(blanks, no);
    TextParses(t, indent, start, end, rows, blanks);
    NothingFinishes(TreeValue(t, map[]).0, lines);
  }

  lemma BlankTail(blanks: seq<string>, no: nat) returns (lines: seq<Line>)
    requires AreBlankLines(blanks)
    ensures AreLines(blanks) && ReadLines(Stripped(blanks), no) == Ok(lines) && SkipBlank(lines) == []
  {
    hide ReadLines, Stripped, IsBlankLine;
    NoMoreLines(no + |blanks|);
    lines := BlanksRead(blanks, [], no);
    assert Stripped(blanks) + [] == Stripped(blanks);
    forall i | 0 <= i < |blanks|
      ensures '\n' !in blanks[i]
    {
      BlankIsLine(blanks[i]);
    }
  }

  lemma NothingFinishes(value: Value, rest: seq<Line>)
    requires SkipBlank(rest) == []
    ensures Finished(value, rest) == Ok(value)
  {
  }

  lemma NoMoreLines(no: nat)
    ensures ReadLines([], no) == Ok([]) && SkipBlank([]) == []
  {
  }

  lemma BlankIsLine(s: string)
    requires IsBlankLine(s)
    ensures '\n' !in s
  {
  }

  /** Nothing but blank lines is a null. */
  lemma EmptyRoundTrip(blanks: seq<string>)
    requires AreBlankLines(blanks)
    ensures FromStr(Unlines(blanks)) == Ok(Null)
  {
    hide ReadLines, Stripped, IsBlankLine, ParseNode, AreBlankLines;
    var lines := BlankTail(blanks, 1);
    UnlinesRead(blanks);
    NullParses(lines);
  }

  lemma NullParses(lines: seq<Line>)
    requires SkipBlank(lines) == []
    ensures ParseDocument(lines) == Ok(Null)
  {
    assert SkipBlank([]) == [];
  }

  /** Flow text of any value is a document of its own. */
  lemma FlowRoundTrip(j: Json)
    requires Leaf(j).Valid() && JsonResolves(j, map[])
    ensures FromStr(FlowText(j, "")) == Ok(JsonValue(j, map[]))
  {
    hide *;
    var text := FlowText(j, "");
    LeafIs(j);
    FlowIsLineText(j);
    TextLine(text, 1);
    NoMoreLines(2);
    ReadLinesStep(text, [], 1);
    OneLine(text);
    var line := ReadLine(text, 1).value;
    assert [line] + [] == [line];
    OneLineStarts(line, Row(0, text));
    assert Leaf(j) != Empty;
    DocumentParses(Leaf(j), 0, false, false, [line]);
    NothingFinishes(JsonValue(j, map[]), []);
    FromLines(text, [line]);
  }

  lemma {:induction false} LeafIs(j: Json)
    requires Leaf(j).Valid() && JsonResolves(j, map[])
    ensures j.Valid() && Resolves(Leaf(j), map[]) && TreeValue(Leaf(j), map[]).0 == JsonValue(j, map[])
    ensures DocumentRows(Leaf(j), 0, false, false) == [Row(0, FlowText(j, ""))]
  {
    hide FlowText, JsonValue, JsonResolves;
  }

  lemma {:induction false} OneLineStarts(line: Line, row: Row)
    requires Says(line, row) && row.text != ""
    ensures Starts([line], [row]) && After([line], [row]) == []
  {
    assert SkipBlank([line]) == [line] && [line][1..] == [] && [row][1..] == [];
  }

  lemma OneLine(text: string)
    requires IsLineText(text)
    ensures Lines(text) == [text] && [text] + [] == [text]
  {
  }

  predicate IsLetter(c: char) {
    'a' <= c <= 'z' || 'A' <= c <= 'Z'
  }

  /** Words of letters can be keys, and unless they are core-schema words values, without quotes. */
  lemma {:induction false} LettersArePlain(s: string)
    requires s != "" && forall i | 0 <= i < |s| :: IsLetter(s[i])
    ensures IsBlockKey(s) && (!IsCoreWord(s) ==> IsBlockPlain(s))
  {
    QuoteFreeCrossed(s);
  }

  /** So can the two ports of a mapping. */
  lemma {:induction false} PortsArePlain()
    ensures IsBlockPlain("8080:80")
  {
    var s := "8080:80";
    QuoteFreeCrossed(s);
    assert s[4] == ':' && s[5] == '8';
    NumberIsNoWord(s);
  }

  function ImageEntry(): Entry {
    Entry(Scalar("image", Bare), None, Plain("nginx"))
  }

  lemma {:induction false} ImageIsValid()
    ensures IsEntry(ImageEntry()) && ImageEntry().tree.Valid() && Mapping([ImageEntry()], 2).Valid()
  {
    assert "image"[0] == 'i' && "nginx"[0] == 'n';
    LettersArePlain("image");
    LettersArePlain("nginx");
    hide IsBlockKey, IsBlockPlain;
  }

  lemma {:induction false} ImageRows()
    ensures Rows(Mapping([ImageEntry()], 2), 0) == [Row(0, "image: nginx")]
  {
    var e := ImageEntry();
    assert EntryRows([], 2, 0) == [] && [e][1..] == [];
    assert KeyRow(e, 0) == Row(0, "image: nginx");
    assert EntryRows([e], 2, 0) == [KeyRow(e, 0)] + ([] + []);
  }

  lemma {:induction false} ImageMeans()
    ensures var t := Mapping([ImageEntry()], 2);
      Resolves(t, map[]) && TreeValue(t, map[]).0 == Object(map["image" := String("nginx")])
  {
    var e := ImageEntry();
    assert "image"[0] == 'i';
    assert EntryValue(e, map[]) == (String("nginx"), map[]);
    assert [e][1..] == [] && EntryValues([], map[]) == ([], map[]);
    assert EntryValues([e], map[]).0 == [Met("image", String("nginx"), 0)];
    hide FieldsOf;
    ImageFields();
  }

  lemma {:induction false} ImageFields()
    ensures FieldsOf([Met("image", String("nginx"), 0)]) == map["image" := String("nginx")]
  {
    var mets := [Met("image", String("nginx"), 0)];
    assert mets[1..] == [] && MetKeys([]) == {};
    DistinctEntries(mets, "image");
    assert MetKeys(mets) == {"image"};
  }

  function ImageDressed(): Dressed {
    Dressed([], Row(0, "image: nginx"), " # web")
  }

  lemma {:induction false} ImageSource()
    ensures AreDressed([ImageDressed()])
    ensures Undressed([ImageDressed()]) == [Row(0, "image: nginx")]
    ensures Unlines(SourceLines([ImageDressed()]) + []) == "image: nginx # web\n"
  {
    var d := ImageDressed();
    assert IsNoteAt(d.note, 1);
    assert [d][1..] == [] && SourceLines([]) == [] && Undressed([]) == [];
    assert OwnSource(d) == "image: nginx # web";
    assert SourceLines([d]) + [] == [OwnSource(d)];
    assert [OwnSource(d)][1..] == [] && Unlines([]) == "";
  }

  /** A compose line with a comment behind it. */
  lemma {:induction false} ImageParses()
    ensures FromStr("image: nginx # web\n") == Ok(Object(map["image" := String("nginx")]))
  {
    var t := Mapping([ImageEntry()], 2);
    assert DocumentRows(t, 0, false, false) == Rows(t, 0) by {
      hide Rows;
    }
    hide *;
    ImageIsValid();
    ImageRows();
    ImageMeans();
    ImageSource();
    BlockRoundTrip(t, 0, false, false, [ImageDressed()], []);
  }

  // ---- what a document may not hold -----------------------------------

  /** A tab in the indentation. */
  predicate IsTabbed(s: string) {
    SkipSpaces(s) != "" && SkipSpaces(s)[0] == '\t'
  }

  lemma {:induction false} StripKeepsTab(s: string)
    ensures IsTabbed(StripCr(s)) <==> IsTabbed(s)
  {
    if s != "" && s[|s| - 1] == '\r' {
      SpacesCut(s);
    }
  }

  lemma TabReads(s: string, no: nat)
    ensures IsTabbed(s) ==> ReadLine(s, no) == Err(Error(no, TabIndentation))
    ensures !IsTabbed(s) ==> ReadLine(s, no).Ok? && ReadLine(s, no).value.no == no
  {
    StripKeepsTab(s);
  }

  /** The line is the first that is indented by a tab. */
  predicate IsFirstTabbed(sources: seq<string>, i: nat) {
    i < |sources| && IsTabbed(sources[i]) && forall k | 0 <= k < i :: !IsTabbed(sources[k])
  }

  lemma {:induction false} FirstTabFails(sources: seq<string>, i: nat, no: nat)
    requires IsFirstTabbed(sources, i)
    ensures ReadLines(sources, no) == Err(Error(no + i, TabIndentation))
    decreases i
  {
    hide ReadLine, IsTabbed;
    TabReads(sources[0], no);
    if i == 0 {
    } else {
      assert forall k | 0 <= k < i :: sources[1..][k] == sources[k + 1];
      FirstTabFails(sources[1..], i - 1, no + 1);
    }
  }

  lemma {:induction false} UntabbedReads(sources: seq<string>, no: nat)
    requires forall i | 0 <= i < |sources| :: !IsTabbed(sources[i])
    ensures ReadLines(sources, no).Ok?
    decreases |sources|
  {
    hide ReadLine, IsTabbed;
    if sources == [] {
    } else {
      TabReads(sources[0], no);
      UntabbedReads(sources[1..], no + 1);
    }
  }

  /** The lines of a text are accepted exactly if no line is indented by a tab; the first such line is reported. */
  lemma TabsExactly(sources: seq<string>, no: nat)
    ensures ReadLines(sources, no).Ok? <==> forall i | 0 <= i < |sources| :: !IsTabbed(sources[i])
    ensures forall i: nat | IsFirstTabbed(sources, i) :: ReadLines(sources, no) == Err(Error(no + i, TabIndentation))
  {
    hide ReadLines, IsTabbed;
    forall i: nat | IsFirstTabbed(sources, i)
      ensures ReadLines(sources, no) == Err(Error(no + i, TabIndentation))
    {
      FirstTabFails(sources, i, no);
    }
    if forall i | 0 <= i < |sources| :: !IsTabbed(sources[i]) {
      UntabbedReads(sources, no);
    } else {
      var i := FirstTab(sources);
      assert IsFirstTabbed(sources, i);
    }
  }

  lemma {:induction false} FirstTab(sources: seq<string>) returns (i: nat)
    requires exists k :: 0 <= k < |sources| && IsTabbed(sources[k])
    ensures IsFirstTabbed(sources, i)
  {
    hide IsTabbed;
    i := 0;
    while !IsTabbed(sources[i])
      invariant i < |sources| && forall k | 0 <= k < i :: !IsTabbed(sources[k])
      decreases |sources| - i
    {
      i := i + 1;
    }
  }

  /** A second document, or any text behind the end of the first one, is refused with its line. */
  lemma ContentBehindFails(
    t: Tree, indent: nat, start: bool, end: bool, rows: seq<Dressed>, text: string, more: seq<string>)
    requires t.Valid() && Resolves(t, map[]) && !t.Empty?
    requires AreDressed(rows) && Undressed(rows) == DocumentRows(t, indent, start, end)
    requires IsLineText(text) && (end || text == "---")
    requires AreLines(more) && forall i | 0 <= i < |more| :: !IsTabbed(StripCr(more[i]))
    ensures FromStr(Unlines(SourceLines(rows) + ([text] + more)))
      == Err(Error(|SourceLines(rows)| + 1, if text == "---" then MultiDocument else UnexpectedContent))
  {
    hide *;
    var no := 1 + |SourceLines(rows)|;
    var lines := TextTail(text, more, no);
    TextParses(t, indent, start, end, rows, [text] + more);
    ContentFinishes(TreeValue(t, map[]).0, lines);
  }

  lemma ContentFinishes(value: Value, rest: seq<Line>)
    requires rest != [] && rest[0].text != ""
    ensures SkipBlank(rest) == rest
    ensures Finished(value, rest)
      == Err(Error(rest[0].no, if rest[0].text == "---" then MultiDocument else UnexpectedContent))
  {
  }

  /** A text and further lines are read to that text first. */
  lemma TextTail(text: string, more: seq<string>, no: nat) returns (lines: seq<Line>)
    requires IsLineText(text)
    requires AreLines(more) && forall i | 0 <= i < |more| :: !IsTabbed(StripCr(more[i]))
    ensures AreLines([text] + more) && ReadLines(Stripped([text] + more), no) == Ok(lines)
    ensures lines != [] && lines[0].indent == 0 && lines[0].text == text != "" && lines[0].no == no
    ensures SkipBlank(lines) == lines
  {
    hide ReadLine, StripCr, IsTabbed;
    var tail := [text] + more;
    assert tail[1..] == more && '\n' !in text;
    hide IsLineText;
    StrippedAre(more);
    TabsExactly(Stripped(more), no + 1);
    TextLine(text, no);
    ReadLinesStep(text, Stripped(more), no);
    assert Stripped(tail) == [text] + Stripped(more);
    lines := [ReadLine(text, no).value] + ReadLines(Stripped(more), no + 1).value;
  }

  lemma {:induction false} StrippedAre(sources: seq<string>)
    ensures forall i | 0 <= i < |sources| :: Stripped(sources)[i] == StripCr(sources[i])
  {
    if sources == [] {
    } else {
      StrippedAre(sources[1..]);
    }
  }

  lemma TextLine(text: string, no: nat)
    requires IsLineText(text)
    ensures StripCr(text) == text && text != ""
    ensures ReadLine(text, no).Ok? && Says(ReadLine(text, no).value, Row(0, text)) && ReadLine(text, no).value.no == no
  {
    assert IsNoteAt("", 0);
    RowReads(Row(0, text), "", no);
    assert Spaces(0) + (text + "") == text;
  }

  /** A directive is refused. */
  lemma DirectiveFails(blanks: seq<string>, text: string, more: seq<string>)
    requires AreBlankLines(blanks) && IsLineText(text) && text[0] == '%'
    requires AreLines(more) && forall i | 0 <= i < |more| :: !IsTabbed(StripCr(more[i]))
    ensures FromStr(Unlines(blanks + ([text] + more))) == Err(Error(|blanks| + 1, Directive))
  {
    hide *;
    var tail := [text] + more;
    var rest := TextTail(text, more, 1 + |blanks|);
    var front := BlankTail(blanks, 1);
    var lines := BlanksRead(blanks, Stripped(tail), 1);
    StrippedConcat(blanks, tail);
    AreLinesConcat(blanks, tail);
    UnlinesRead(blanks + tail);
    DirectiveParses(lines);
    FromLines(Unlines(blanks + tail), lines);
  }

  lemma AreLinesConcat(a: seq<string>, b: seq<string>)
    requires AreLines(a) && AreLines(b)
    ensures forall i | 0 <= i < |a + b| :: '\n' !in (a + b)[i]
  {
  }

  lemma FromLines(text: string, lines: seq<Line>)
    requires ReadLines(Lines(text), 1) == Ok(lines)
    ensures FromStr(text) == ParseDocument(lines)
  {
  }

  lemma DirectiveParses(lines: seq<Line>)
    requires SkipBlank(lines) != [] && SkipBlank(lines)[0].text[0] == '%'
    ensures ParseDocument(lines) == Err(Error(SkipBlank(lines)[0].no, Directive))
  {
    hide ParseNode;
  }
}
