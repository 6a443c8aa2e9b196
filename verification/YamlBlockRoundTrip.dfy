/** The rows of a tree are read back to its value, wherever they stand. */
module YamlBlockRoundTrip {
  import opened Wrappers
  import opened Text
  import opened YamlScan
  import opened YamlFlow
  import opened YamlBlock
  import opened YamlMerge
  import opened YamlScalars
  import opened YamlPrint
  import opened YamlFlowRoundTrip
  import opened YamlFlowText

  // ---- rows and lines -------------------------------------------------

  predicate Says(l: Line, row: Row) {
    l.indent == row.indent && l.text == row.text
  }

  /** `lines` starts with the rows, and any blank lines in front of them and between them. */
  ghost predicate Starts(lines: seq<Line>, rows: seq<Row>)
    decreases |rows|
  {
    rows == [] || (
      var r := SkipBlank(lines);
      r != [] && Says(r[0], rows[0]) && Starts(r[1..], rows[1..]))
  }

  /** The lines behind the rows. */
  function After(lines: seq<Line>, rows: seq<Row>): seq<Line>
    decreases |rows|
  {
    if rows == [] then lines
    else
      var r := SkipBlank(lines);
      if r == [] then [] else After(r[1..], rows[1..])
  }

  lemma {:induction false} StartsSplit(lines: seq<Line>, first: seq<Row>, rest: seq<Row>)
    requires Starts(lines, first + rest)
    ensures Starts(lines, first) && Starts(After(lines, first), rest)
    ensures After(After(lines, first), rest) == After(lines, first + rest)
    decreases |first|
  {
    if first == [] {
      assert first + rest == rest;
    } else {
      assert (first + rest)[1..] == first[1..] + rest;
      StartsSplit(SkipBlank(lines)[1..], first[1..], rest);
    }
  }

  /** Nothing but lines indented less than `indent`, or the marker of a document, follows next. */
  ghost predicate Stops(lines: seq<Line>, indent: nat) {
    var r := SkipBlank(lines);
    r == [] || r[0].indent < indent || (r[0].indent == 0 && IsMarker(r[0].text))
  }

  // ---- one line -------------------------------------------------------

  predicate IsInline(t: Tree) {
    t.Leaf? || t.Plain? || t.Spread?
  }

  /** The rows below the first one. */
  function More(t: Tree): seq<Row> {
    if t.Spread? then t.more else []
  }

  lemma SpreadHead(t: Tree)
    requires t.Spread? && t.Valid()
    ensures Inline(t) != "" && IsOpen(Inline(t)[0]) && !IsWhite(Inline(t)[0])
  {
    FlowTextHead(t.json, "");
    assert (t.first + MoreText(t.more))[0] == t.first[0];
  }

  lemma {:induction false} NoColonNoEnd(s: string)
    requires ':' !in s
    ensures NoKeyEnd(s)
  {
  }

  lemma BlockPlainIsNoEntry(s: string, no: nat)
    requires IsBlockPlain(s)
    ensures !IsItem(s) && !IsMarker(s) && SplitKey(s, no) == Ok(None)
  {
    hide Crossed, IsStringText, IsWhite;
    PlainSplits(s, no);
  }

  lemma WordIsNoEntry(j: Json, no: nat)
    requires IsWord(j) && j.Valid()
    ensures var s := WordText(j);
      && !IsItem(s) && !IsMarker(s) && SplitKey(s, no) == Ok(None)
      && s != "" && !IsWhite(s[0]) && s[0] !in {'&', '|', '>', '%', '*', '!', '"', '\'', '[', '{'}
  {
    var s := WordText(j);
    WordReads(j, map[]);
    PlainHead(s);
    if j.JInt? {
      IntTextShape(j.n);
    }
    hide IntText;
    assert ':' !in s;
    NoColonNoEnd(s);
    PlainSplits(s, no);
  }

  lemma AliasIsNoEntry(name: string, no: nat)
    requires IsName(name)
    ensures SplitKey("*" + name, no) == Ok(None)
  {
    NameIsCalm(name);
    NoColonNoEnd("*" + name);
    PlainSplits("*" + name, no);
  }

  lemma LeafIsNoEntry(j: Json, no: nat)
    requires Leaf(j).Valid()
    ensures var s := FlowText(j, "");
      && !IsItem(s) && !IsMarker(s) && SplitKey(s, no) == Ok(None)
      && s != "" && !IsWhite(s[0]) && s[0] !in {'&', '|', '>', '%'}
  {
    var s := FlowText(j, "");
    FlowTextHead(j, "");
    match j
    case JStr(scalar) =>
      if scalar.style.Bare? {
        assert s == scalar.text;
        BlockPlainIsNoEntry(s, no);
      } else {
        QuotedIsNoEntry(scalar, "", no);
      }
    case JAlias(name) =>
      assert s == "*" + name;
      AliasIsNoEntry(name, no);
    case JArr(_, _) =>
    case JObj(_, _) =>
    case _ =>
      assert s == WordText(j);
      WordIsNoEntry(j, no);
  }

  /** A node on a line is neither a sequence item nor a mapping entry. */
  lemma InlineIsNoEntry(t: Tree, no: nat)
    requires IsInline(t) && t.Valid()
    ensures var s := Inline(t);
      && !IsItem(s) && !IsMarker(s) && SplitKey(s, no) == Ok(None)
      && s != "" && !IsWhite(s[0]) && s[0] !in {'&', '|', '>', '%'}
  {
    match t
    case Leaf(j) => LeafIsNoEntry(j, no);
    case Plain(text) => BlockPlainIsNoEntry(text, no);
    case Spread(_, _, _) => SpreadHead(t);
  }

  lemma CollectionReads(j: Json, buf: string, no: nat, lines: seq<Line>, rest: seq<Line>, anchors: Anchors)
    requires j.Valid() && j.IsCollection() && JsonResolves(j, anchors)
    requires buf != "" && IsOpen(buf[0]) && GatherFlow(buf, no, lines) == Ok((FlowText(j, ""), rest))
    ensures ParseInlineValue(buf, no, lines, anchors) == Ok(Out(JsonValue(j, anchors), rest, anchors))
  {
    hide GatherFlow, FlowText, JsonValue, FlowValue, JsonResolves;
    FlowReads(j, "", anchors, no);
  }

  lemma PlainLeafReads(s: string, value: Value, no: nat, lines: seq<Line>, anchors: Anchors)
    requires s != "" && s[0] !in {'*', '&', '[', '{', '!', '"', '\''} && PlainScalar(s) == value
    ensures ParseInlineValue(s, no, lines, anchors) == Ok(Out(value, lines, anchors))
  {
    hide PlainScalar;
  }

  lemma BlockPlainReads(s: string, no: nat, lines: seq<Line>, anchors: Anchors)
    requires IsBlockPlain(s)
    ensures ParseInlineValue(s, no, lines, anchors) == Ok(Out(String(s), lines, anchors))
  {
    StringTextReads(s);
    hide PlainScalar;
    PlainLeafReads(s, String(s), no, lines, anchors);
  }

  lemma QuotedLeafReads(s: Scalar, no: nat, lines: seq<Line>, anchors: Anchors)
    requires !s.style.Bare?
    ensures ParseInlineValue(ScalarText(s), no, lines, anchors) == Ok(Out(String(s.text), lines, anchors))
  {
    ScalarReads(s, "", no);
    assert ScalarText(s) + "" == ScalarText(s);
    hide TakeQuoted, ScalarText;
    assert Trim("") == "";
  }

  lemma AliasLeafReads(name: string, no: nat, lines: seq<Line>, anchors: Anchors)
    requires IsName(name) && name in anchors
    ensures ParseInlineValue("*" + name, no, lines, anchors) == Ok(Out(anchors[name], lines, anchors))
  {
    NameIsCalm(name);
    WordSplits(name, "");
    hide SplitWord;
    assert ("*" + name)[1..] == name;
  }

  lemma LeafReads(j: Json, no: nat, lines: seq<Line>, anchors: Anchors)
    requires Leaf(j).Valid() && JsonResolves(j, anchors)
    ensures ParseInlineValue(FlowText(j, ""), no, lines, anchors) == Ok(Out(JsonValue(j, anchors), lines, anchors))
  {
    var s := FlowText(j, "");
    hide ParseInlineValue;
    match j
    case JStr(scalar) =>
      assert s == ScalarText(scalar);
      if scalar.style.Bare? {
        BlockPlainReads(s, no, lines, anchors);
      } else {
        QuotedLeafReads(scalar, no, lines, anchors);
      }
    case JAlias(name) =>
      assert s == "*" + name;
      AliasLeafReads(name, no, lines, anchors);
    case JArr(_, _) => CollectionLeafReads(j, no, lines, anchors);
    case JObj(_, _) => CollectionLeafReads(j, no, lines, anchors);
    case _ =>
      assert s == WordText(j);
      WordReads(j, anchors);
      WordIsNoEntry(j, no);
      PlainLeafReads(s, JsonValue(j, anchors), no, lines, anchors);
  }

  lemma CollectionLeafReads(j: Json, no: nat, lines: seq<Line>, anchors: Anchors)
    requires j.Valid() && j.IsCollection() && JsonResolves(j, anchors)
    ensures ParseInlineValue(FlowText(j, ""), no, lines, anchors) == Ok(Out(JsonValue(j, anchors), lines, anchors))
  {
    FlowTextHead(j, "");
    FlowCrosses(j, "", true, 0, 0);
    hide FlowText, ParseInlineValue, JsonValue;
    CollectionReads(j, FlowText(j, ""), no, lines, lines, anchors);
  }

  /** Lines are gathered, each behind a space, until the brackets are closed. */
  lemma {:induction false} GatherReads(first: string, more: seq<Row>, whole: string, no: nat, lines: seq<Line>)
    requires first != "" && first + MoreText(more) == whole && Starts(lines, more)
    requires forall k | 0 < k < |whole| :: FlowDepth(whole[..k], no).Ok? && FlowDepth(whole[..k], no).value > 0
    requires FlowDepth(whole, no) == Ok(0)
    ensures GatherFlow(first, no, lines) == Ok((whole, After(lines, more)))
    decreases |more|
  {
    hide FlowDepth;
    if more == [] {
      assert first == whole;
    } else {
      var r := SkipBlank(lines);
      var next := first + " " + more[0].text;
      assert next + MoreText(more[1..]) == whole;
      GatherReads(next, more[1..], whole, no, r[1..]);
      assert whole[..|first|] == first;
    }
  }

  lemma SpreadReads(t: Tree, no: nat, lines: seq<Line>, anchors: Anchors)
    requires t.Spread? && t.Valid() && JsonResolves(t.json, anchors) && Starts(lines, t.more)
    ensures ParseInlineValue(t.first, no, lines, anchors)
      == Ok(Out(JsonValue(t.json, anchors), After(lines, t.more), anchors))
  {
    var whole := FlowText(t.json, "");
    SpreadHead(t);
    FlowCrosses(t.json, "", true, 0, 0);
    forall k | 0 < k < |whole|
      ensures FlowDepth(whole[..k], no).Ok? && FlowDepth(whole[..k], no).value > 0
    {
      OpenUntilEnd(t.json, k, no);
    }
    hide FlowText, JsonValue, ParseInlineValue, Starts, After, JsonResolves, IsLineText;
    GatherReads(t.first, t.more, whole, no, lines);
    CollectionReads(t.json, t.first, no, lines, After(lines, t.more), anchors);
  }

  lemma InlineReads(t: Tree, no: nat, lines: seq<Line>, anchors: Anchors)
    requires IsInline(t) && t.Valid() && Resolves(t, anchors) && Starts(lines, More(t))
    ensures ParseInlineValue(Inline(t), no, lines, anchors)
      == Ok(Out(TreeValue(t, anchors).0, After(lines, More(t)), anchors))
  {
    hide ParseInlineValue, FlowText, JsonValue;
    match t
    case Leaf(j) => LeafReads(j, no, lines, anchors);
    case Plain(text) => BlockPlainReads(text, no, lines, anchors);
    case Spread(_, _, _) => SpreadReads(t, no, lines, anchors);
  }

  // ---- nodes ----------------------------------------------------------

  lemma RowsHead(t: Tree, indent: nat)
    requires t.Valid() && !t.Empty?
    ensures var rows := Rows(t, indent);
      && rows != [] && rows[0].indent == indent
      && rows[0].text != "" && !IsWhite(rows[0].text[0])
      && !IsMarker(rows[0].text) && rows[0].text[0] != '%'
      && (t.Sequence? <==> IsItem(rows[0].text))
  {
    if IsInline(t) {
      InlineIsNoEntry(t, 0);
    } else if t.Sequence? {
      var Sequence(items, compact, step) := t;
      hide IsWhite, Rows;
      var rows := Dash(Rows(items[0], indent + Offset(compact, step)), compact, step, indent);
      assert ItemRows(items, compact, step, indent) == rows + ItemRows(items[1..], compact, step, indent);
      DashHead(Rows(items[0], indent + Offset(compact, step)), compact, step, indent);
      assert Rows(t, indent) == ItemRows(items, compact, step, indent) by {
        SequenceRows(items, compact, step, indent);
      }
    } else {
      KeyHead(t.entries[0], indent);
    }
  }

  lemma SequenceRows(items: seq<Tree>, compact: bool, step: nat, indent: nat)
    ensures Rows(Sequence(items, compact, step), indent) == ItemRows(items, compact, step, indent)
  {
  }

  lemma DashHead(rows: seq<Row>, compact: bool, step: nat, indent: nat)
    requires step > 0
    ensures var dash := Dash(rows, compact, step, indent)[0];
      && dash.indent == indent && IsItem(dash.text) && !IsMarker(dash.text)
      && dash.text != "" && dash.text[0] == '-' && !IsWhite(dash.text[0])
  {
    if compact && rows != [] {
      var text := "-" + (Spaces(step) + rows[0].text);
      assert text[1] == ' ';
    }
  }

  // ---- items ----------------------------------------------------------

  /** The content of a dash line on a line of its own, at its column, with its number and what stood behind it. */
  lemma VirtualIs(l: Line, step: nat, content: string)
    requires step > 0 && l.text == "-" + (Spaces(step) + content) && content != "" && !IsWhite(content[0])
    ensures IsItem(l.text) && l.text != "-"
    ensures var v := Virtual(l);
      && v.text == content && v.indent == l.indent + step + 1
      && v.no == l.no && v.raw == content + l.raw[|l.text|..]
  {
    assert l.text[1] == ' ';
    assert l.text[2..] == Spaces(step - 1) + content;
    SpacesSkip(step - 1, content);
    assert SkipSpaces(content) == content;
    assert l.text[step + 1..] == content;
    assert l.raw == l.text + l.raw[|l.text|..];
  }

  /** The lines an item is read from start with its rows, and end where it ends. */
  lemma ItemStarts(lines: seq<Line>, rows: seq<Row>, compact: bool, step: nat, indent: nat)
    requires step > 0 && (rows != [] ==> rows[0].indent == indent + Offset(compact, step))
    requires rows != [] ==> rows[0].text != "" && !IsWhite(rows[0].text[0])
    requires Starts(lines, Dash(rows, compact, step, indent))
    ensures var r := SkipBlank(lines);
      && r != [] && IsItem(r[0].text) && r[0].indent == indent
      && Starts(ItemLines(r), rows)
      && After(ItemLines(r), rows) == After(lines, Dash(rows, compact, step, indent))
  {
    hide IsWhite, Virtual, HeadLength;
    var r, first := SkipBlank(lines), Dash(rows, compact, step, indent);
    if compact && rows != [] {
      VirtualIs(r[0], step, rows[0].text);
      var inner := ItemLines(r);
      assert inner == [Virtual(r[0])] + r[1..] && inner[1..] == r[1..];
      assert first[1..] == rows[1..];
      assert SkipBlank(inner) == inner;
    } else {
      assert first[1..] == rows;
      assert ItemLines(r) == r[1..];
    }
  }

  /** The rows of a sequence begin with those of its first item. */
  lemma ItemOpens(items: seq<Tree>, compact: bool, step: nat, indent: nat, lines: seq<Line>)
    requires items != [] && items[0].Valid() && step > 0
    requires Starts(lines, ItemRows(items, compact, step, indent))
    ensures var r, own, rest := SkipBlank(lines), Rows(items[0], indent + Offset(compact, step)),
        ItemRows(items[1..], compact, step, indent);
      && r != [] && IsItem(r[0].text) && r[0].indent == indent
      && Starts(ItemLines(r), own)
      && Starts(After(ItemLines(r), own), rest)
      && After(After(ItemLines(r), own), rest) == After(lines, ItemRows(items, compact, step, indent))
  {
    hide ItemLines, Rows, Dash, IsItem, IsWhite, Starts, After;
    var own := Rows(items[0], indent + Offset(compact, step));
    if items[0].Empty? {
      assert own == [] by {
        EmptyRows(indent + Offset(compact, step));
      }
    } else {
      RowsHead(items[0], indent + Offset(compact, step));
    }
    StartsSplit(lines, Dash(own, compact, step, indent), ItemRows(items[1..], compact, step, indent));
    ItemStarts(lines, own, compact, step, indent);
  }

  lemma EmptyRows(indent: nat)
    ensures Rows(Empty, indent) == []
  {
  }

  /** An item with at least its dash line is read, and then the rest. */
  lemma ItemStep(lines: seq<Line>, indent: nat, done: seq<Value>, anchors: Anchors, out: Out)
    requires var r := SkipBlank(lines);
      && r != [] && IsItem(r[0].text) && r[0].indent == indent
      && ParseNode(ItemLines(r), indent + 1, anchors) == Ok(out)
    ensures ParseItems(lines, indent, done, anchors) == ParseItems(out.rest, indent, done + [out.value], out.anchors)
  {
    hide ParseNode, ItemLines, SkipBlank;
  }

  lemma ItemsEnd(indent: nat, lines: seq<Line>, done: seq<Value>, anchors: Anchors)
    requires Stops(lines, indent)
    ensures ParseItems(lines, indent, done, anchors) == Ok(Out(Array(done), lines, anchors))
  {
    hide SkipBlank, IsItem, IsMarker;
    var r := SkipBlank(lines);
    if r != [] && IsMarker(r[0].text) {
      MarkerIsNoItem(r[0].text);
    }
  }

  lemma MarkerIsNoItem(text: string)
    requires IsMarker(text)
    ensures !IsItem(text)
  {
    assert text[1] != ' ';
  }

  /** Whatever follows an item is indented less than it. */
  lemma ItemRowsStop(items: seq<Tree>, compact: bool, step: nat, indent: nat, lines: seq<Line>)
    requires step > 0
    requires var rows := ItemRows(items, compact, step, indent); Starts(lines, rows) && Stops(After(lines, rows), indent)
    ensures Stops(lines, indent + 1)
  {
    hide SkipBlank;
    if items == [] {
    } else {
      var own := Rows(items[0], indent + Offset(compact, step));
      DashHead(own, compact, step, indent);
      assert ItemRows(items, compact, step, indent)[0] == Dash(own, compact, step, indent)[0];
    }
  }

  /** The first item is read, and then the rest. */
  lemma NextItemReads(
    items: seq<Tree>, compact: bool, step: nat, indent: nat, lines: seq<Line>, done: seq<Value>, anchors: Anchors)
    requires step > 0 && items != [] && items[0].Valid() && Resolves(items[0], anchors)
    requires var rows := ItemRows(items, compact, step, indent); Starts(lines, rows) && Stops(After(lines, rows), indent)
    ensures var r, rest := SkipBlank(lines), ItemRows(items[1..], compact, step, indent);
      && r != [] && IsItem(r[0].text)
      && var below := After(ItemLines(r), Rows(items[0], indent + Offset(compact, step)));
         var (value, known) := TreeValue(items[0], anchors);
         && Starts(below, rest) && After(below, rest) == After(lines, ItemRows(items, compact, step, indent))
         && ParseItems(lines, indent, done, anchors) == ParseItems(below, indent, done + [value], known)
    decreases items, 0
  {
    hide *;
    var r, own := SkipBlank(lines), Rows(items[0], indent + Offset(compact, step));
    var (value, known) := TreeValue(items[0], anchors);
    ItemOpens(items, compact, step, indent, lines);
    var below := After(ItemLines(r), own);
    ItemRowsStop(items[1..], compact, step, indent, below);
    OffsetIsDeeper(compact, step);
    NodeReads(items[0], indent + Offset(compact, step), ItemLines(r), indent + 1, anchors);
    ItemStep(lines, indent, done, anchors, Out(value, below, known));
  }

  lemma OffsetIsDeeper(compact: bool, step: nat)
    requires step > 0
    ensures Offset(compact, step) > 0
  {
  }

  lemma {:induction false} ItemsRead(
    items: seq<Tree>, compact: bool, step: nat, indent: nat, lines: seq<Line>, done: seq<Value>, anchors: Anchors)
    requires step > 0 && (forall i | 0 <= i < |items| :: items[i].Valid()) && ItemsResolve(items, anchors)
    requires var rows := ItemRows(items, compact, step, indent); Starts(lines, rows) && Stops(After(lines, rows), indent)
    ensures var (values, known) := TreeValues(items, anchors);
      ParseItems(lines, indent, done, anchors)
      == Ok(Out(Array(done + values), After(lines, ItemRows(items, compact, step, indent)), known))
    decreases items, 1
  {
    if items == [] {
      hide ParseItems, Stops, IsItem;
      ItemsEnd(indent, lines, done, anchors);
      assert done + [] == done;
    } else {
      hide *;
      var r, rest := SkipBlank(lines), items[1..];
      var (value, known) := TreeValue(items[0], anchors);
      FirstItem(items, anchors);
      NextItemReads(items, compact, step, indent, lines, done, anchors);
      var below := After(ItemLines(r), Rows(items[0], indent + Offset(compact, step)));
      ItemsRead(rest, compact, step, indent, below, done + [value], known);
      assert done + [value] + TreeValues(rest, known).0 == done + ([value] + TreeValues(rest, known).0);
    }
  }

  lemma FirstItem(items: seq<Tree>, anchors: Anchors)
    requires items != [] && ItemsResolve(items, anchors)
    ensures var (value, known) := TreeValue(items[0], anchors);
      && Resolves(items[0], anchors) && ItemsResolve(items[1..], known)
      && TreeValues(items, anchors) == ([value] + TreeValues(items[1..], known).0, TreeValues(items[1..], known).1)
  {
    hide TreeValue, Resolves;
  }

  // ---- entries --------------------------------------------------------

  lemma InlineHead(t: Tree)
    requires t.Valid()
    ensures IsInline(t) <==> Inline(t) != ""
    ensures Inline(t) != "" ==> !IsWhite(Inline(t)[0]) && Inline(t)[0] !in {'&', '|', '>'}
  {
    if IsInline(t) {
      InlineIsNoEntry(t, 0);
    }
  }

  lemma ValueTextHead(e: Entry)
    requires e.tree.Valid()
    ensures ValueText(e) != "" ==> !IsWhite(ValueText(e)[0])
  {
    InlineHead(e.tree);
  }

  /** What stands behind the colon. */
  function BehindColon(value: string): (rest: string)
    ensures rest == "" || rest[0] == ' '
  {
    if value == "" then "" else " " + value
  }

  lemma BehindColonTrims(value: string)
    requires value != "" ==> !IsWhite(value[0])
    ensures TrimStart(BehindColon(value)) == value
  {
    assert value != "" ==> (" " + value)[1..] == value;
  }

  lemma KeySplits(key: Scalar, value: string, no: nat)
    requires IsKey(key) && (value != "" ==> !IsWhite(value[0]))
    ensures SplitKey(ScalarText(key) + (":" + BehindColon(value)), no) == Ok(Some((key.text, value)))
  {
    hide TrimStart, IsWhite, Crossed, BehindColon, SplitKey;
    BehindColonTrims(value);
    var rest := BehindColon(value);
    if key.style.Bare? {
      PlainKeySplits(key.text, rest, no);
    } else {
      assert ":" + rest == "" + (":" + rest);
      QuotedKeySplits(key, "", rest, no) by {
        assert TrimStart("") == "" by {
          NothingTrims();
        }
      }
    }
  }

  lemma NothingTrims()
    ensures TrimStart("") == ""
  {
  }

  lemma EntrySplits(e: Entry, indent: nat, no: nat)
    requires IsEntry(e) && e.tree.Valid()
    ensures SplitKey(KeyRow(e, indent).text, no) == Ok(Some((e.key.text, ValueText(e))))
  {
    ValueTextHead(e);
    hide SplitKey, ValueText, ScalarText, IsBlockKey;
    KeySplits(e.key, ValueText(e), no);
  }

  lemma KeyHead(e: Entry, indent: nat)
    requires IsEntry(e)
    ensures var text := KeyRow(e, indent).text;
      text != "" && !IsWhite(text[0]) && text[0] != '%' && !IsItem(text) && !IsMarker(text)
  {
    var text := KeyRow(e, indent).text;
    var colon := ":" + if ValueText(e) == "" then "" else " " + ValueText(e);
    assert text == ScalarText(e.key) + colon;
    if e.key.style.Bare? {
      var key := e.key.text;
      BareKeyHead(key, colon);
    }
  }

  lemma BareKeyHead(key: string, colon: string)
    requires IsBlockKey(key) && ":" <= colon && (|colon| > 1 ==> colon[1] == ' ')
    ensures var text := key + colon;
      text != "" && !IsWhite(text[0]) && text[0] != '%' && !IsItem(text) && !IsMarker(text)
  {
    var text := key + colon;
    assert text[|key|] == ':';
    assert text[0] == key[0];
    assert |key| > 1 ==> text[1] == key[1];
  }

  /** The rows of a mapping begin with the key row of its first entry. */
  lemma EntryOpens(entries: seq<Entry>, step: nat, indent: nat, lines: seq<Line>)
    requires entries != [] && IsEntry(entries[0]) && entries[0].tree.Valid()
    requires Starts(lines, EntryRows(entries, step, indent))
    ensures var r, e := SkipBlank(lines), entries[0];
      && r != [] && r[0].indent == indent && !IsMarker(r[0].text)
      && SplitKey(r[0].text, r[0].no) == Ok(Some((e.key.text, ValueText(e))))
      && var nested, rest := Below(e, step, indent), EntryRows(entries[1..], step, indent);
         && Starts(r[1..], nested) && Starts(After(r[1..], nested), rest)
         && After(After(r[1..], nested), rest) == After(lines, EntryRows(entries, step, indent))
  {
    hide SplitKey, KeyRow, Below, IsMarker;
    var r, e := SkipBlank(lines), entries[0];
    var nested, rest := Below(e, step, indent), EntryRows(entries[1..], step, indent);
    var rows := [KeyRow(e, indent)] + (nested + rest);
    assert rows[1..] == nested + rest;
    StartsSplit(r[1..], nested, rest);
    EntrySplits(e, indent, r[0].no);
    KeyHead(e, indent);
    assert KeyRow(e, indent).indent == indent by {
      KeyIndent(e, indent);
    }
  }

  lemma KeyIndent(e: Entry, indent: nat)
    ensures KeyRow(e, indent).indent == indent
  {
  }

  /** What follows an entry is not part of it. */
  ghost predicate Follows(entries: seq<Entry>, indent: nat, lines: seq<Line>) {
    entries == [] || IsInline(entries[|entries| - 1].tree) || Stops(lines, indent + 1)
  }

  lemma EntryRowsStop(e: Entry, rest: seq<Entry>, step: nat, indent: nat, lines: seq<Line>)
    requires var rows := EntryRows(rest, step, indent);
      Starts(lines, rows) && Follows([e] + rest, indent, After(lines, rows))
    ensures IsInline(e.tree) || Stops(lines, indent + 1)
  {
    hide SkipBlank;
    if rest != [] {
      KeyIndent(rest[0], indent);
      assert EntryRows(rest, step, indent)[0] == KeyRow(rest[0], indent);
    }
  }

  /** An entry is read, and then the rest. */
  lemma EntryStep(
    lines: seq<Line>, indent: nat, own: map<string, Value>, merged: map<string, Value>, anchors: Anchors,
    key: string, text: string, out: Out)
    requires var r := SkipBlank(lines);
      && r != [] && r[0].indent == indent && !IsMarker(r[0].text)
      && SplitKey(r[0].text, r[0].no) == Ok(Some((key, text)))
      && ParseValueAfterKey(text, indent, r[0].no, r[1..], anchors) == Ok(out)
    requires key == "<<" ==> AreMappings(out.value)
    ensures AddEntry(key, out.value, own, merged, 0).Ok?
    ensures var (m, n) := AddEntry(key, out.value, own, merged, 0).value;
      ParseEntries(lines, indent, own, merged, anchors) == ParseEntries(out.rest, indent, m, n, out.anchors)
  {
    hide ParseValueAfterKey, SplitKey, SkipBlank, AddEntry, AreMappings;
    EntryAdds(key, out.value, own, merged, 0, SkipBlank(lines)[0].no);
  }

  lemma EntriesEnd(
    indent: nat, lines: seq<Line>, own: map<string, Value>, merged: map<string, Value>, anchors: Anchors)
    requires Stops(lines, indent)
    ensures ParseEntries(lines, indent, own, merged, anchors) == Ok(Out(Object(merged + own), lines, anchors))
  {
    hide SkipBlank, IsMarker;
  }

  /** The first entry is read, and then the rest. */
  lemma NextEntryReads(
    entries: seq<Entry>, step: nat, indent: nat, lines: seq<Line>, own: map<string, Value>, merged: map<string, Value>,
    anchors: Anchors)
    requires step > 0 && entries != [] && IsEntry(entries[0]) && entries[0].tree.Valid()
    requires EntriesResolve(entries, anchors)
    requires var rows := EntryRows(entries, step, indent);
      Starts(lines, rows) && Follows(entries, indent, After(lines, rows))
    ensures var r, e, rest := SkipBlank(lines), entries[0], EntryRows(entries[1..], step, indent);
      && r != [] && AddEntry(e.key.text, EntryValue(e, anchors).0, own, merged, 0).Ok?
      && var below := After(r[1..], Below(e, step, indent));
         var (m, n) := AddEntry(e.key.text, EntryValue(e, anchors).0, own, merged, 0).value;
         && Starts(below, rest) && After(below, rest) == After(lines, EntryRows(entries, step, indent))
         && ParseEntries(lines, indent, own, merged, anchors)
            == ParseEntries(below, indent, m, n, EntryValue(e, anchors).1)
    decreases entries, 0
  {
    hide *;
    var r, e := SkipBlank(lines), entries[0];
    var (value, known) := EntryValue(e, anchors);
    EntryOpens(entries, step, indent, lines);
    var below := After(r[1..], Below(e, step, indent));
    assert [e] + entries[1..] == entries;
    EntryRowsStop(e, entries[1..], step, indent, below);
    FirstResolves(entries, anchors);
    EntryReads(e, step, indent, r[0].no, r[1..], anchors);
    EntryStep(lines, indent, own, merged, anchors, e.key.text, ValueText(e), Out(value, below, known));
  }

  lemma FirstResolves(entries: seq<Entry>, anchors: Anchors)
    requires entries != [] && EntriesResolve(entries, anchors)
    ensures EntryResolves(entries[0], anchors)
    ensures entries[0].key.text == "<<" ==> AreMappings(EntryValue(entries[0], anchors).0)
  {
  }

  lemma FollowsRest(entries: seq<Entry>, indent: nat, lines: seq<Line>)
    requires entries != [] && Follows(entries, indent, lines)
    ensures Follows(entries[1..], indent, lines)
  {
  }

  /** The entries are read, whatever follows them. */
  lemma {:induction false} EntriesPass(
    entries: seq<Entry>, step: nat, indent: nat, lines: seq<Line>, own: map<string, Value>, merged: map<string, Value>,
    anchors: Anchors)
    requires step > 0 && forall i | 0 <= i < |entries| :: IsEntry(entries[i]) && entries[i].tree.Valid()
    requires EntriesResolve(entries, anchors)
    requires var rows := EntryRows(entries, step, indent);
      Starts(lines, rows) && Follows(entries, indent, After(lines, rows))
    ensures var (mets, known) := EntryValues(entries, anchors);
      var fields := AddEntries(mets, own, merged);
      && fields.Ok?
      && ParseEntries(lines, indent, own, merged, anchors)
         == ParseEntries(
           After(lines, EntryRows(entries, step, indent)), indent, fields.value.0, fields.value.1, known)
    decreases entries, 1
  {
    hide ParseEntries, Below, EntryValue, Starts, AddEntry, EntryResolves, IsEntry, Follows;
    if entries == [] {
    } else {
      var e, r, rest := entries[0], SkipBlank(lines), entries[1..];
      var (value, known) := EntryValue(e, anchors);
      NextEntryReads(entries, step, indent, lines, own, merged, anchors);
      var below := After(r[1..], Below(e, step, indent));
      hide After, EntryRows;
      var (m, n) := AddEntry(e.key.text, value, own, merged, 0).value;
      FollowsRest(entries, indent, After(lines, EntryRows(entries, step, indent)));
      EntriesPass(rest, step, indent, below, m, n, known);
      var mets := EntryValues(entries, anchors).0;
      assert mets[0] == Met(e.key.text, value, 0) && mets[1..] == EntryValues(rest, known).0;
    }
  }

  lemma EntriesRead(entries: seq<Entry>, step: nat, indent: nat, lines: seq<Line>, anchors: Anchors)
    requires Mapping(entries, step).Valid() && EntriesResolve(entries, anchors)
    requires var rows := EntryRows(entries, step, indent); Starts(lines, rows) && Stops(After(lines, rows), indent)
    ensures var (value, known) := TreeValue(Mapping(entries, step), anchors);
      ParseEntries(lines, indent, map[], map[], anchors)
      == Ok(Out(value, After(lines, EntryRows(entries, step, indent)), known))
    decreases entries, 2
  {
    var rows := EntryRows(entries, step, indent);
    var (mets, known) := EntryValues(entries, anchors);
    assert Stops(After(lines, rows), indent + 1);
    assert TreeValue(Mapping(entries, step), anchors) == (Object(FieldsOf(mets)), known);
    hide ParseEntries, EntryRows, EntryValues, EntriesResolve, Stops, Starts, After, IsEntry, FieldsOf, AddEntries;
    EntriesPass(entries, step, indent, lines, map[], map[], anchors);
    var fields := AddEntries(mets, map[], map[]).value;
    EntriesEnd(indent, After(lines, rows), fields.0, fields.1, known);
    FieldsAddUp(mets);
  }

  lemma InlineBehindKeyReads(t: Tree, indent: nat, no: nat, lines: seq<Line>, anchors: Anchors)
    requires IsInline(t) && t.Valid() && Resolves(t, anchors) && Starts(lines, More(t))
    ensures ParseValueAfterKey(Inline(t), indent, no, lines, anchors)
      == Ok(Out(TreeValue(t, anchors).0, After(lines, More(t)), TreeValue(t, anchors).1))
  {
    assert TreeValue(t, anchors).1 == anchors;
    InlineHead(t);
    hide ParseInlineValue, Starts, After, Inline, TreeValue, Resolves, JsonValue;
    InlineReads(t, no, lines, anchors);
  }

  lemma BelowKeyReads(indent: nat, no: nat, lines: seq<Line>, anchors: Anchors)
    ensures ParseValueAfterKey("", indent, no, lines, anchors) == ParseNode(lines, indent + 1, anchors)
  {
    hide ParseNode;
  }

  lemma EntryReads(e: Entry, step: nat, indent: nat, no: nat, lines: seq<Line>, anchors: Anchors)
    requires IsEntry(e) && e.tree.Valid() && step > 0 && EntryResolves(e, anchors)
    requires var rows := Below(e, step, indent);
      Starts(lines, rows) && (IsInline(e.tree) || Stops(After(lines, rows), indent + 1))
    ensures var (value, known) := EntryValue(e, anchors);
      ParseValueAfterKey(ValueText(e), indent, no, lines, anchors)
      == Ok(Out(value, After(lines, Below(e, step, indent)), known))
    decreases e, 0
  {
    hide *;
    var t, rows := e.tree, Below(e, step, indent);
    BelowIs(e, step, indent);
    InlineHead(t);
    ResolvesBehind(e, anchors);
    if IsInline(t) {
      InlineBehindKeyReads(t, indent, no, lines, anchors);
    } else {
      NodeReads(t, indent + step, lines, indent + 1, anchors);
    }
    NamedReads(e, indent, no, lines, anchors, Out(TreeValue(t, anchors).0, After(lines, rows), TreeValue(t, anchors).1));
  }

  lemma ResolvesBehind(e: Entry, anchors: Anchors)
    requires EntryResolves(e, anchors)
    ensures Resolves(e.tree, anchors)
  {
  }

  lemma BelowIs(e: Entry, step: nat, indent: nat)
    ensures Below(e, step, indent) == if IsInline(e.tree) then More(e.tree) else Rows(e.tree, indent + step)
  {
  }

  /** The value of an entry with its anchor, from that of its tree. */
  lemma NamedReads(e: Entry, indent: nat, no: nat, lines: seq<Line>, anchors: Anchors, out: Out)
    requires IsEntry(e) && e.tree.Valid()
    requires out.value == TreeValue(e.tree, anchors).0 && out.anchors == TreeValue(e.tree, anchors).1
    requires if Inline(e.tree) == "" then ParseNode(lines, indent + 1, anchors) == Ok(out)
             else ParseValueAfterKey(Inline(e.tree), indent, no, lines, anchors) == Ok(out)
    ensures ParseValueAfterKey(ValueText(e), indent, no, lines, anchors)
      == Ok(Out(EntryValue(e, anchors).0, out.rest, EntryValue(e, anchors).1))
  {
    InlineHead(e.tree);
    hide Inline, TreeValue, ParseValueAfterKey, ParseNode;
    match e.anchor
    case None => BelowKeyReads(indent, no, lines, anchors);
    case Some(name) => AnchorReads(name, Inline(e.tree), indent, no, lines, anchors);
  }

  /** An anchor names the value behind it. */
  lemma AnchorReads(name: string, text: string, indent: nat, no: nat, lines: seq<Line>, anchors: Anchors)
    requires IsName(name) && (text != "" ==> !IsWhite(text[0]))
    ensures ParseValueAfterKey("&" + (name + if text == "" then "" else " " + text), indent, no, lines, anchors)
      == match (if text == "" then ParseNode(lines, indent + 1, anchors)
                else ParseValueAfterKey(text, indent, no, lines, anchors))
         case Ok(out) => Ok(out.(anchors := out.anchors[name := out.value]))
         case Err(e) => Err(e)
  {
    var behind := name + if text == "" then "" else " " + text;
    NameIsCalm(name);
    WordSplits(name, text);
    assert name + "" == name && ("&" + behind)[1..] == behind;
    hide ParseNode, SplitWord;
  }

  /** Reading the rows of a tree gives its value and its anchors, and leaves what follows them. */
  lemma {:induction false} NodeReads(t: Tree, indent: nat, lines: seq<Line>, minIndent: nat, anchors: Anchors)
    requires t.Valid() && Resolves(t, anchors) && minIndent <= indent && (t.Empty? ==> minIndent > 0)
    requires Starts(lines, Rows(t, indent)) && Stops(After(lines, Rows(t, indent)), minIndent)
    ensures ParseNode(lines, minIndent, anchors)
      == Ok(Out(TreeValue(t, anchors).0, After(lines, Rows(t, indent)), TreeValue(t, anchors).1))
    decreases t, 1
  {
    hide ParseItems, ParseEntries, ParseInlineValue, IsItem, SplitKey, IsMarker;
    var r := SkipBlank(lines);
    if IsInline(t) {
      InlineIsNoEntry(t, r[0].no);
      assert Rows(t, indent)[1..] == More(t);
      InlineReads(t, r[0].no, r[1..], anchors);
    } else if !t.Empty? {
      RowsHead(t, indent);
      assert Says(r[0], Rows(t, indent)[0]);
      if t.Sequence? {
        ItemsRead(t.items, t.compact, t.step, indent, lines, [], anchors);
        assert [] + TreeValues(t.items, anchors).0 == TreeValues(t.items, anchors).0;
      } else {
        EntryOpens(t.entries, t.step, indent, lines);
        assert t == Mapping(t.entries, t.step);
        EntriesRead(t.entries, t.step, indent, lines, anchors);
      }
    }
  }

  // ---- anchors on a line of their own ---------------------------------

  /** On a line without a key an anchor names the value behind it. */
  lemma {:induction false} InlineAnchorReads(name: string, text: string, no: nat, lines: seq<Line>, anchors: Anchors)
    requires IsName(name) && text != "" && !IsWhite(text[0])
    ensures ParseInlineValue("&" + (name + (" " + text)), no, lines, anchors)
      == match ParseInlineValue(text, no, lines, anchors)
         case Ok(out) => Ok(out.(anchors := out.anchors[name := out.value]))
         case Err(e) => Err(e)
  {
    var behind := name + (" " + text);
    NameIsCalm(name);
    WordSplits(name, text);
    hide SplitWord, GatherFlow, ParseFlow, ScalarToken, IsCalm, IsName;
    assert ("&" + behind)[1..] == behind;
  }

  /** There it must have a name and be given a value. */
  lemma {:induction false} InlineAnchorFails(name: string, text: string, no: nat, lines: seq<Line>, anchors: Anchors)
    requires ' ' !in name && (name == "" || text == "")
    ensures ParseInlineValue("&" + if text == "" then name else name + (" " + text), no, lines, anchors)
      == Err(Error(no, AnchorValueMissing))
  {
    var behind := if text == "" then name else name + (" " + text);
    WordSplits(name, text);
    hide SplitWord, GatherFlow, ParseFlow, ScalarToken, TrimStart;
    assert ("&" + behind)[1..] == behind;
  }

  lemma {:induction false} AnchorLine(name: string, text: string)
    requires IsName(name)
    ensures var line, n := "&" + (name + (" " + text)), |name| + 2;
      && |line| == n + |text| && StartsPlain(line) && !IsWhite(line[0])
      && (forall i | 0 <= i < n :: line[i] != ':')
      && forall i | 0 <= i < |text| :: EndsKey(line, n + i) <==> EndsKey(text, i)
  {
    var line, n := "&" + (name + (" " + text)), |name| + 2;
    NameIsCalm(name);
    hide IsName, IsCalm;
    assert forall i | 0 <= i < |text| :: line[n + i] == text[i];
    assert forall i | 0 <= i < |name| :: line[i + 1] == name[i];
  }

  /** A node with an anchor is taken for an entry if and only if something behind the anchor looks like the end of a key. */
  lemma {:induction false} AnchoredNodeExactly(name: string, text: string, no: nat)
    requires IsName(name)
    ensures SplitKey("&" + (name + (" " + text)), no) == Ok(None) <==> NoKeyEnd(text)
  {
    var line, n := "&" + (name + (" " + text)), |name| + 2;
    hide *;
    AnchorLine(name, text);
    if NoKeyEnd(text) {
      LineHasNoEnd(line, n, text);
      PlainSplits(line, no);
    } else {
      var i := FirstKeyEnd(line, n, text);
      StartStays(line, i);
      SplitsAt(line, i, no);
    }
  }

  lemma {:induction false} FirstKeyEnd(line: string, n: nat, text: string) returns (i: nat)
    requires |line| == n + |text| && !NoKeyEnd(text)
    requires forall i | 0 <= i < n :: line[i] != ':'
    requires forall i | 0 <= i < |text| :: EndsKey(line, n + i) <==> EndsKey(text, i)
    ensures n <= i < |line| && EndsKey(line, i) && forall k | 0 <= k < i :: !EndsKey(line, k)
  {
    hide EndsKey;
    assert forall k | 0 <= k < n :: !EndsKey(line, k) by {
      NoColonHere(line, n);
    }
    var j :| 0 <= j < |text| && EndsKey(text, j);
    i := n;
    while !EndsKey(line, i)
      invariant n <= i <= n + j && forall k | 0 <= k < i :: !EndsKey(line, k)
      decreases n + j - i
    {
      i := i + 1;
    }
  }

  lemma {:induction false} SplitsAt(line: string, i: nat, no: nat)
    requires StartsPlain(line) && i < |line| && EndsKey(line, i) && TrimEnd(line[..i]) != ""
    requires forall k | 0 <= k < i :: !EndsKey(line, k)
    ensures SplitKey(line, no) != Ok(None)
  {
    PlainSplits(line, no);
    hide *;
  }

  lemma {:induction false} LineHasNoEnd(line: string, n: nat, text: string)
    requires |line| == n + |text| && NoKeyEnd(text)
    requires forall i | 0 <= i < n :: line[i] != ':'
    requires forall i | 0 <= i < |text| :: EndsKey(line, n + i) <==> EndsKey(text, i)
    ensures NoKeyEnd(line)
  {
    NoColonHere(line, n);
    hide EndsKey;
    forall i | 0 <= i < |line|
      ensures !EndsKey(line, i)
    {
      if i >= n {
        assert !EndsKey(text, i - n);
      }
    }
  }

  lemma {:induction false} NoColonHere(line: string, n: nat)
    requires n <= |line| && forall i | 0 <= i < n :: line[i] != ':'
    ensures forall k | 0 <= k < n :: !EndsKey(line, k)
  {
  }

  lemma {:induction false} StartStays(line: string, i: nat)
    requires 0 < i <= |line| && !IsWhite(line[0])
    ensures TrimEnd(line[..i]) != ""
    decreases i
  {
    if IsWhite(line[..i][i - 1]) {
      assert line[..i][..i - 1] == line[..i - 1];
      assert i > 1;
      StartStays(line, i - 1);
    }
  }

  lemma {:induction false} MisreadParts()
    ensures var line := "&a {x: 1}";
      && StartsPlain(line) && EndsKey(line, 5) && (forall k | 0 <= k < 5 :: !EndsKey(line, k))
      && TrimEnd(line[..5]) == "&a {x" && TrimStart(line[6..]) == "1}"
  {
    var line := "&a {x: 1}";
    assert line[..5] == "&a {x" && line[6..] == " 1}" && " 1}"[1..] == "1}";
  }

  /** So is a flow mapping behind an anchor. */
  lemma {:induction false} AnchoredFlowIsEntry(no: nat)
    ensures SplitKey("&a {x: 1}", no) == Ok(Some(("&a {x", "1}")))
  {
    hide *;
    MisreadParts();
    PlainSplits("&a {x: 1}", no);
  }
}
