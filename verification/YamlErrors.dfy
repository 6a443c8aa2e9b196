/** Which error a document that is not accepted is refused with, and for which line. */
module YamlErrors {
  import opened Wrappers
  import opened Text
  import opened YamlScan
  import opened YamlFlow
  import opened YamlBlock
  import opened YamlMerge
  import opened YamlProgress
  import opened YamlScalars
  import opened YamlPrint
  import opened YamlFlowRoundTrip
  import opened YamlFlowText
  import opened YamlBlockRoundTrip
  import opened YamlDocuments

  // ---- values ---------------------------------------------------------

  lemma {:induction false} EmptyNameFails(text: string, indent: nat, no: nat, lines: seq<Line>, anchors: Anchors)
    requires text == "" || text[0] == ' '
    ensures ParseValueAfterKey("&" + text, indent, no, lines, anchors) == Err(Error(no, AnchorNameMissing))
  {
    assert ("&" + text)[1..] == text;
    assert SplitWord(text).0 == "";
    hide ParseNode, SplitWord;
  }

  lemma {:induction false} UnknownAliasFails(name: string, indent: nat, no: nat, lines: seq<Line>, anchors: Anchors)
    requires IsName(name) && name !in anchors
    ensures ParseValueAfterKey("*" + name, indent, no, lines, anchors) == Err(Error(no, UnknownAnchor))
  {
    NameIsCalm(name);
    WordSplits(name, "");
    assert ("*" + name)[1..] == name;
    hide ParseNode, SplitWord;
  }

  lemma {:induction false} ContentBehindAliasFails(
    name: string, text: string, indent: nat, no: nat, lines: seq<Line>, anchors: Anchors)
    requires IsName(name) && text != "" && !IsWhite(text[0])
    ensures ParseValueAfterKey("*" + (name + (" " + text)), indent, no, lines, anchors)
      == Err(Error(no, ContentAfterAlias))
  {
    NameIsCalm(name);
    WordSplits(name, text);
    assert ("*" + (name + (" " + text)))[1..] == name + (" " + text);
    hide ParseNode, SplitWord;
  }

  lemma {:induction false} TagFails(text: string, indent: nat, no: nat, lines: seq<Line>, anchors: Anchors)
    ensures ParseValueAfterKey("!" + text, indent, no, lines, anchors) == Err(Error(no, Tag))
  {
    hide ParseNode;
  }

  /** A scalar in quotes with something behind it that is not blank, without its end, or with an unknown escape. */
  lemma {:induction false} QuotedFails(s: Scalar, tail: string, indent: nat, no: nat, lines: seq<Line>, anchors: Anchors)
    requires !s.style.Bare? && tail != "" && tail[0] != '\'' && Trim(tail) != ""
    ensures ParseValueAfterKey(ScalarText(s) + tail, indent, no, lines, anchors) == Err(Error(no, ContentAfterQuoted))
  {
    ScalarReads(s, tail, no);
    hide ParseNode, Trim, TakeQuoted, ScalarText;
  }

  lemma {:induction false} OpenQuoteFails(s: string, indent: nat, no: nat, lines: seq<Line>, anchors: Anchors)
    ensures ParseValueAfterKey("\"" + Escape(s), indent, no, lines, anchors) == Err(Error(no, UnterminatedQuote))
    ensures ParseValueAfterKey("'" + Doubled(s), indent, no, lines, anchors) == Err(Error(no, UnterminatedQuote))
  {
    UnterminatedFails(s, no);
    hide ParseNode, TakeQuoted, Escape, Doubled;
  }

  lemma {:induction false} EscapeFails(
    s: string, c: char, tail: string, indent: nat, no: nat, lines: seq<Line>, anchors: Anchors)
    requires c !in {'n', 't', 'r', '0', '\\', '"'}
    ensures ParseValueAfterKey("\"" + (Escape(s) + (['\\', c] + tail)), indent, no, lines, anchors)
      == Err(Error(no, UnsupportedEscape))
  {
    UnknownEscapeFails(s, c, tail, no);
    hide ParseNode, TakeQuoted, Escape;
  }

  // ---- flow collections -----------------------------------------------

  /** A collection with more behind it is refused. */
  lemma {:induction false} ContentBehindFlowFails(j: Json, tail: string, no: nat, anchors: Anchors)
    requires j.Valid() && JsonResolves(j, anchors) && Ends(tail) && SkipSpaces(tail) != ""
    ensures ParseFlow(FlowText(j, tail), no, anchors) == Err(Error(no, ContentAfterFlow))
  {
    FlowReads(j, tail, anchors, no);
    hide FlowValue, FlowText, JsonValue, JsonResolves;
  }

  /** So is one bracket too many. */
  lemma {:induction false} ExtraBracketFails(j: Json, c: char, indent: nat, no: nat, lines: seq<Line>, anchors: Anchors)
    requires j.Valid() && j.IsCollection() && (c == ']' || c == '}')
    ensures ParseValueAfterKey(FlowText(j, [c]), indent, no, lines, anchors) == Err(Error(no, UnbalancedBrackets))
  {
    var text := FlowText(j, [c]);
    FlowTextHead(j, [c]);
    FlowCrosses(j, [c], true, 0, 0);
    assert Depth([c], 0, OUTSIDE, no) == Err(Error(no, UnbalancedBrackets));
    hide ParseNode, FlowText, Depth;
    assert FlowDepth(text, no) == Err(Error(no, UnbalancedBrackets));
    GatherFails(text, no, lines);
  }

  lemma {:induction false} GatherFails(buf: string, no: nat, lines: seq<Line>)
    requires FlowDepth(buf, no).Err?
    ensures GatherFlow(buf, no, lines) == Err(FlowDepth(buf, no).error)
  {
  }

  /** A collection that no line closes is refused. */
  lemma {:induction false} OpenFlowFails(j: Json, k: nat, indent: nat, no: nat, anchors: Anchors)
    requires j.Valid() && j.IsCollection() && 0 < k < |FlowText(j, "")|
    ensures ParseValueAfterKey(FlowText(j, "")[..k], indent, no, [], anchors) == Err(Error(no, UnclosedFlow))
  {
    var text := FlowText(j, "");
    FlowTextHead(j, "");
    OpenUntilEnd(j, k, no);
    assert text[..k][0] == text[0];
    hide ParseNode, FlowText, FlowDepth;
    assert SkipBlank([]) == [];
  }

  /** An item or a field in front of the wrong bracket. */
  lemma {:induction false} ItemEndFails(j: Json, rest: string, done: seq<Value>, anchors: Anchors, no: nat)
    requires j.Valid() && JsonResolves(j, anchors)
    ensures FlowItems(FlowText(j, "}" + rest), done, anchors, no) == Err(Error(no, ExpectedCommaOrBracket))
  {
    var tail := "}" + rest;
    assert SkipSpaces(tail) == tail;
    FlowReads(j, tail, anchors, no);
    FlowTextHead(j, tail);
    FlowStarts(FlowText(j, tail));
    hide FlowValue, FlowText, JsonValue, JsonResolves, SkipSpaces;
  }

  lemma {:induction false} FieldEndFails(
    f: Field, layout: Layout, rest: string, done: map<string, Value>, anchors: Anchors, no: nat)
    requires IsFlowScalar(f.key) && (f.key.style.Bare? ==> layout.behind > 0)
    requires f.json.Valid() && JsonResolves(f.json, anchors)
    ensures FlowFields(FieldText(f, layout, "]" + rest), done, anchors, no) == Err(Error(no, ExpectedCommaOrBrace))
  {
    var tail := "]" + rest;
    assert SkipSpaces(tail) == tail;
    FieldReads(f, layout, tail, anchors, no);
    FieldTextHead(f, layout, tail);
    hide FlowField, FieldText, JsonResolves, SkipSpaces, IsFlowScalar;
  }

  /** A key without a colon. */
  lemma {:induction false} MissingColonFails(key: Scalar, rest: string, done: map<string, Value>, anchors: Anchors, no: nat)
    requires IsFlowScalar(key)
    ensures FlowFields(ScalarText(key) + ("}" + rest), done, anchors, no) == Err(Error(no, ExpectedColon))
  {
    var tail := "}" + rest;
    var s := ScalarText(key) + tail;
    assert SkipSpaces(tail) == tail;
    if key.style.Bare? {
      PlainHead(key.text);
      TokenReads(key.text, tail);
      assert !StartsQuoted(s) && SkipSpaces(s) == s && s[0] != '}';
    } else {
      ScalarReads(key, tail, no);
      assert SkipSpaces(s) == s && s[0] != '}';
    }
    hide FlowValue, SkipSpaces, TakeToken, TakeQuoted, Trim, ScalarText;
    assert FlowKey(s, no).Ok? && FlowKey(s, no).value.1 == tail;
    hide FlowKey;
  }

  /** Nothing where a value, an item or a field must be. */
  lemma {:induction false} NothingFails(n: nat, items: seq<Value>, fields: map<string, Value>, anchors: Anchors, no: nat)
    ensures FlowValue(Spaces(n), anchors, no) == Err(Error(no, EndOfFlow))
    ensures FlowItems(Spaces(n), items, anchors, no) == Err(Error(no, UnterminatedFlowSequence))
    ensures FlowFields(Spaces(n), fields, anchors, no) == Err(Error(no, UnterminatedFlowMapping))
  {
    SpacesSkip(n, "");
    assert Spaces(n) + "" == Spaces(n);
  }

  // ---- entries --------------------------------------------------------

  lemma {:induction false} DeeperFails(
    lines: seq<Line>, indent: nat, own: map<string, Value>, merged: map<string, Value>, anchors: Anchors)
    requires var r := SkipBlank(lines); r != [] && r[0].indent > indent && !IsMarker(r[0].text)
    ensures ParseEntries(lines, indent, own, merged, anchors)
      == Err(Error(SkipBlank(lines)[0].no, InconsistentIndentation))
  {
    hide SkipBlank, SplitKey, IsMarker;
  }

  lemma {:induction false} NoKeyFails(
    lines: seq<Line>, indent: nat, own: map<string, Value>, merged: map<string, Value>, anchors: Anchors)
    requires var r := SkipBlank(lines);
      r != [] && r[0].indent == indent && !IsMarker(r[0].text) && SplitKey(r[0].text, r[0].no) == Ok(None)
    ensures ParseEntries(lines, indent, own, merged, anchors) == Err(Error(SkipBlank(lines)[0].no, ExpectedKey))
  {
    hide SkipBlank, SplitKey, IsMarker;
  }

  lemma {:induction false} BadEntryFails(
    lines: seq<Line>, indent: nat, own: map<string, Value>, merged: map<string, Value>, anchors: Anchors,
    key: string, text: string, e: Error)
    requires var r := SkipBlank(lines);
      && r != [] && r[0].indent == indent && !IsMarker(r[0].text)
      && SplitKey(r[0].text, r[0].no) == Ok(Some((key, text)))
      && ParseValueAfterKey(text, indent, r[0].no, r[1..], anchors) == Err(e)
    ensures ParseEntries(lines, indent, own, merged, anchors) == Err(e)
  {
    hide ParseValueAfterKey, SplitKey, SkipBlank;
  }

  /** An item that is refused. */
  lemma {:induction false} BadItemFails(
    lines: seq<Line>, indent: nat, done: seq<Value>, anchors: Anchors, e: Error)
    requires var r := SkipBlank(lines);
      && r != [] && IsItem(r[0].text) && r[0].indent == indent
      && ParseNode(ItemLines(r), indent + 1, anchors) == Err(e)
    ensures ParseItems(lines, indent, done, anchors) == Err(e)
  {
    hide ParseNode, ItemLines, SkipBlank;
  }

  lemma {:induction false} SourcesFail(sources: seq<Value>, merged: map<string, Value>, no: nat)
    requires exists i :: 0 <= i < |sources| && !sources[i].Object?
    ensures MergeSources(sources, merged, no) == Err(Error(no, BadMergeSource))
    decreases |sources|
  {
    if sources[0].Object? {
      var i :| 0 <= i < |sources| && !sources[i].Object?;
      assert sources[1..][i - 1] == sources[i];
      SourcesFail(sources[1..], sources[0].fields + merged, no);
    }
  }

  /** A merge key is refused exactly if it is not given mappings. */
  lemma {:induction false} MergeFails(value: Value, own: map<string, Value>, merged: map<string, Value>, no: nat)
    requires !AreMappings(value)
    ensures AddEntry("<<", value, own, merged, no)
      == Err(Error(no, if value.Array? then BadMergeSource else BadMergeValue))
  {
    if value.Array? {
      SourcesFail(value.items, merged, no);
    }
  }

  lemma {:induction false} BadMergeFails(
    lines: seq<Line>, indent: nat, own: map<string, Value>, merged: map<string, Value>, anchors: Anchors,
    text: string, out: Out)
    requires var r := SkipBlank(lines);
      && r != [] && r[0].indent == indent && !IsMarker(r[0].text)
      && SplitKey(r[0].text, r[0].no) == Ok(Some(("<<", text)))
      && ParseValueAfterKey(text, indent, r[0].no, r[1..], anchors) == Ok(out)
    requires !AreMappings(out.value)
    ensures ParseEntries(lines, indent, own, merged, anchors)
      == Err(Error(SkipBlank(lines)[0].no, if out.value.Array? then BadMergeSource else BadMergeValue))
  {
    hide ParseValueAfterKey, SplitKey, SkipBlank, AddEntry, AreMappings;
    MergeFails(out.value, own, merged, SkipBlank(lines)[0].no);
  }

  // ---- documents ------------------------------------------------------

  /** The row is refused where an entry of a mapping could stand. */
  ghost predicate IsRefused(row: Row, indent: nat, anchors: Anchors, e: Error) {
    forall l: Line, own, merged | Says(l, row) && l.no == e.line ::
      ParseEntries([l], indent, own, merged, anchors) == Err(e)
  }

  lemma {:induction false} EntriesSkip(
    lines: seq<Line>, indent: nat, own: map<string, Value>, merged: map<string, Value>, anchors: Anchors)
    requires ParseEntries(SkipBlank(lines), indent, own, merged, anchors).Err?
    ensures ParseEntries(SkipBlank(lines), indent, own, merged, anchors)
      == ParseEntries(lines, indent, own, merged, anchors)
  {
    SkipTwice(lines);
    hide ParseValueAfterKey, SplitKey, SkipBlank, AddEntry, IsMarker;
  }

  lemma {:induction false} SkipTwice(lines: seq<Line>)
    ensures SkipBlank(SkipBlank(lines)) == SkipBlank(lines)
  {
  }

  lemma {:induction false} MappingStarts(lines: seq<Line>, indent: nat)
    requires var r := SkipBlank(lines);
      && r != [] && r[0].indent == indent && !IsItem(r[0].text) && !IsMarker(r[0].text)
      && SplitKey(r[0].text, r[0].no).Ok? && SplitKey(r[0].text, r[0].no).value.Some?
    ensures Body(lines) == lines
    ensures ParseNode(lines, 0, map[]) == ParseEntries(lines, indent, map[], map[], map[])
  {
    hide ParseEntries, SplitKey, SkipBlank, IsItem;
  }

  lemma {:induction false} EntriesHead(entries: seq<Entry>, step: nat, indent: nat, lines: seq<Line>)
    requires Mapping(entries, step).Valid() && Starts(lines, EntryRows(entries, step, indent))
    ensures var r := SkipBlank(lines);
      && r != [] && r[0].indent == indent && !IsItem(r[0].text) && !IsMarker(r[0].text)
      && r[0].text[0] != '%'
      && SplitKey(r[0].text, r[0].no).Ok? && SplitKey(r[0].text, r[0].no).value.Some?
  {
    hide SplitKey, IsItem, IsMarker;
    KeyHead(entries[0], indent);
    EntryOpens(entries, step, indent, lines);
    assert EntryRows(entries, step, indent)[0] == KeyRow(entries[0], indent);
  }

  /** A mapping that goes on with a line that is refused is refused, for that line. */
  lemma {:induction false} EntriesFail(
    entries: seq<Entry>, step: nat, indent: nat, lines: seq<Line>, row: Row, e: Error)
    requires Mapping(entries, step).Valid() && EntriesResolve(entries, map[])
    requires Starts(lines, EntryRows(entries, step, indent))
    requires var u := SkipBlank(After(lines, EntryRows(entries, step, indent)));
      |u| == 1 && Says(u[0], row) && u[0].no == e.line
    requires IsInline(entries[|entries| - 1].tree) || row.indent <= indent
    requires IsRefused(row, indent, EntryValues(entries, map[]).1, e)
    ensures ParseDocument(lines) == Err(e)
  {
    var rest := After(lines, EntryRows(entries, step, indent));
    var u := SkipBlank(rest);
    assert [u[0]] == u && Follows(entries, indent, rest);
    hide ParseEntries, IsEntry, EntryRows, EntryValues, EntriesResolve, SplitKey, IsItem, IsMarker, Follows;
    EntriesHead(entries, step, indent, lines);
    EntriesPass(entries, step, indent, lines, map[], map[], map[]);
    MappingStarts(lines, indent);
    var fields := AddEntries(EntryValues(entries, map[]).0, map[], map[]).value;
    EntriesSkip(rest, indent, fields.0, fields.1, EntryValues(entries, map[]).1);
    hide ParseNode, SkipBlank, AddEntries;
    DocumentSteps(lines);
  }

  /** The lines carry their numbers. */
  lemma {:induction false} LinesNumbered(sources: seq<string>, no: nat, k: nat)
    requires ReadLines(sources, no).Ok? && k < |sources|
    ensures ReadLines(sources, no).value[k].no == no + k
    decreases k
  {
    hide ReadLine;
    TabReads(sources[0], no);
    if k == 0 {
    } else {
      LinesNumbered(sources[1..], no + 1, k - 1);
    }
  }

  lemma {:induction false} AfterSuffix(lines: seq<Line>, rows: seq<Row>)
    ensures IsSuffix(After(lines, rows), lines)
    decreases |rows|
  {
    hide IsSuffix;
    if rows == [] {
      Whole(lines);
    } else {
      var r := SkipBlank(lines);
      if r == [] {
        NothingLeft(lines);
      } else {
        AfterPeeked(lines);
        AfterSuffix(r[1..], rows[1..]);
        SuffixTransitive(After(r[1..], rows[1..]), r[1..], lines);
      }
    }
  }

  lemma {:induction false} NothingLeft(lines: seq<Line>)
    ensures IsSuffix([], lines)
  {
  }

  /** The line of the last row is the last line. */
  lemma {:induction false} LastLine(lines: seq<Line>, rows: seq<Row>, last: Row)
    requires Starts(lines, rows + [last]) && After(lines, rows + [last]) == []
    ensures Starts(lines, rows) && lines != []
    ensures var u := SkipBlank(After(lines, rows)); |u| == 1 && Says(u[0], last) && u[0] == lines[|lines| - 1]
  {
    StartsSplit(lines, rows, [last]);
    var rest := After(lines, rows);
    var u := SkipBlank(rest);
    assert After(rest, [last]) == u[1..];
    AfterSuffix(lines, rows);
    BlankSuffix(rest);
    SuffixTransitive(u, rest, lines);
  }

  /** A mapping whose last row is refused: the document is refused with the number of that line. */
  lemma {:induction false} LastRowFails(
    entries: seq<Entry>, step: nat, indent: nat, rows: seq<Dressed>, last: Row, kind: ErrorKind)
    requires Mapping(entries, step).Valid() && EntriesResolve(entries, map[])
    requires AreDressed(rows) && Undressed(rows) == EntryRows(entries, step, indent) + [last] && IsLineText(last.text)
    requires IsInline(entries[|entries| - 1].tree) || last.indent <= indent
    requires IsRefused(last, indent, EntryValues(entries, map[]).1, Error(|SourceLines(rows)|, kind))
    ensures FromStr(Unlines(SourceLines(rows))) == Err(Error(|SourceLines(rows)|, kind))
  {
    hide *;
    var own := EntryRows(entries, step, indent);
    MappingOnLines(entries, step, indent);
    RowsConcat(own, last);
    NoMoreLines(1 + |SourceLines(rows)|);
    var lines := SourcesRead(rows, [], 1);
    assert Stripped(SourceLines(rows)) + [] == Stripped(SourceLines(rows));
    LastLine(lines, own, last);
    LinesNumbered(Stripped(SourceLines(rows)), 1, |lines| - 1);
    SourcesAreLines(rows);
    LinesApart(SourceLines(rows));
    UnlinesRead(SourceLines(rows));
    EntriesFail(entries, step, indent, lines, last, Error(|SourceLines(rows)|, kind));
    FromLines(Unlines(SourceLines(rows)), lines);
  }

  lemma {:induction false} MappingOnLines(entries: seq<Entry>, step: nat, indent: nat)
    requires Mapping(entries, step).Valid()
    ensures AreLineTexts(EntryRows(entries, step, indent))
  {
    EntryRowsOnLines(entries, step, indent);
  }

  lemma {:induction false} RowsConcat(rows: seq<Row>, last: Row)
    requires AreLineTexts(rows) && IsLineText(last.text)
    ensures AreLineTexts(rows + [last])
  {
  }

  lemma {:induction false} LinesApart(sources: seq<string>)
    requires AreLines(sources)
    ensures forall i | 0 <= i < |sources| :: '\n' !in sources[i]
  {
  }

  /** A line that is indented further than the entries it follows. */
  lemma {:induction false} DeeperRowFails(
    entries: seq<Entry>, step: nat, indent: nat, rows: seq<Dressed>, last: Row)
    requires Mapping(entries, step).Valid() && EntriesResolve(entries, map[])
    requires AreDressed(rows) && Undressed(rows) == EntryRows(entries, step, indent) + [last] && IsLineText(last.text)
    requires IsInline(entries[|entries| - 1].tree) && last.indent > indent && last.text !in {"---", "..."}
    ensures FromStr(Unlines(SourceLines(rows))) == Err(Error(|SourceLines(rows)|, InconsistentIndentation))
  {
    var e := Error(|SourceLines(rows)|, InconsistentIndentation);
    var known := EntryValues(entries, map[]).1;
    forall l: Line, own, merged | Says(l, last) && l.no == e.line
      ensures ParseEntries([l], indent, own, merged, known) == Err(e)
    {
      assert SkipBlank([l]) == [l];
      DeeperFails([l], indent, own, merged, known);
    }
    hide *;
    RefusedIs(last, indent, known, e);
    LastRowFails(entries, step, indent, rows, last, InconsistentIndentation);
  }

  lemma {:induction false} RefusedIs(row: Row, indent: nat, anchors: Anchors, e: Error)
    requires forall l: Line, own, merged | Says(l, row) && l.no == e.line ::
      ParseEntries([l], indent, own, merged, anchors) == Err(e)
    ensures IsRefused(row, indent, anchors, e)
  {
    hide ParseEntries, Says;
  }

  /** A line without a key where the entries go on. */
  lemma {:induction false} NoKeyRowFails(
    entries: seq<Entry>, step: nat, indent: nat, rows: seq<Dressed>, text: string)
    requires Mapping(entries, step).Valid() && EntriesResolve(entries, map[])
    requires AreDressed(rows) && Undressed(rows) == EntryRows(entries, step, indent) + [Row(indent, text)]
    requires IsLineText(text) && text !in {"---", "..."} && StartsPlain(text) && NoKeyEnd(text)
    ensures FromStr(Unlines(SourceLines(rows))) == Err(Error(|SourceLines(rows)|, ExpectedKey))
  {
    var last, e := Row(indent, text), Error(|SourceLines(rows)|, ExpectedKey);
    var known := EntryValues(entries, map[]).1;
    forall l: Line, own, merged | Says(l, last) && l.no == e.line
      ensures ParseEntries([l], indent, own, merged, known) == Err(e)
    {
      assert SkipBlank([l]) == [l];
      PlainSplits(text, l.no);
      NoKeyFails([l], indent, own, merged, known);
    }
    hide *;
    RefusedIs(last, indent, known, e);
    LastRowFails(entries, step, indent, rows, last, ExpectedKey);
  }

  lemma {:induction false} BadValueRefused(
    key: Scalar, value: string, indent: nat, anchors: Anchors, no: nat, kind: ErrorKind)
    requires IsKey(key) && IsLineText(value)
    requires ParseValueAfterKey(value, indent, no, [], anchors) == Err(Error(no, kind))
    ensures var row := Row(indent, ScalarText(key) + (":" + (" " + value)));
      IsLineText(row.text) && IsRefused(row, indent, anchors, Error(no, kind))
  {
    hide *;
    var row, e := Row(indent, ScalarText(key) + (":" + (" " + value))), Error(no, kind);
    TextHead(value);
    KeyIsLineText(key);
    KeyTextOnLine(ScalarText(key), value);
    KeyLineHead(key, value);
    KeySplits(key, value, no);
    assert BehindColon(value) == " " + value by {
      BehindIs(value);
    }
    forall l: Line, own, merged | Says(l, row) && l.no == e.line
      ensures ParseEntries([l], indent, own, merged, anchors) == Err(e)
    {
      OneLineLeft(l, row);
      BadEntryFails([l], indent, own, merged, anchors, key.text, value, e);
    }
    RefusedIs(row, indent, anchors, e);
  }

  lemma {:induction false} TextHead(text: string)
    requires IsLineText(text)
    ensures text != "" && !IsWhite(text[0])
  {
  }

  lemma {:induction false} BehindIs(value: string)
    requires value != ""
    ensures BehindColon(value) == " " + value
  {
  }

  lemma {:induction false} KeyLineHead(key: Scalar, value: string)
    requires IsKey(key) && value != ""
    ensures !IsMarker(ScalarText(key) + (":" + (" " + value)))
  {
    KeyHead(Entry(key, None, Plain(value)), 0);
  }

  lemma {:induction false} OneLineLeft(l: Line, row: Row)
    requires Says(l, row) && row.text != ""
    ensures SkipBlank([l]) == [l] && [l][1..] == [] && l.indent == row.indent && l.text == row.text
  {
  }

  /** An entry with a value that is refused. */
  lemma {:induction false} BadValueRowFails(
    entries: seq<Entry>, step: nat, indent: nat, rows: seq<Dressed>, key: Scalar, value: string, kind: ErrorKind)
    requires Mapping(entries, step).Valid() && EntriesResolve(entries, map[]) && IsKey(key) && IsLineText(value)
    requires AreDressed(rows)
    requires Undressed(rows) == EntryRows(entries, step, indent) + [Row(indent, ScalarText(key) + (":" + (" " + value)))]
    requires ParseValueAfterKey(value, indent, |SourceLines(rows)|, [], EntryValues(entries, map[]).1)
      == Err(Error(|SourceLines(rows)|, kind))
    ensures FromStr(Unlines(SourceLines(rows))) == Err(Error(|SourceLines(rows)|, kind))
  {
    hide *;
    var last := Row(indent, ScalarText(key) + (":" + (" " + value)));
    BadValueRefused(key, value, indent, EntryValues(entries, map[]).1, |SourceLines(rows)|, kind);
    LastRowFails(entries, step, indent, rows, last, kind);
  }
}
