/** The block parser only ever consumes lines from the front of what is left. */
module YamlProgress {
  import opened Wrappers
  import opened Text
  import opened YamlScan
  import opened YamlBlock

  lemma {:induction false} BlankSuffix(lines: seq<Line>)
    ensures IsSuffix(SkipBlank(lines), lines)
  {
    if lines != [] && lines[0].text == "" {
      BlankSuffix(lines[1..]);
      SuffixTransitive(SkipBlank(lines), lines[1..], lines);
    }
  }

  lemma AfterPeeked(lines: seq<Line>)
    requires SkipBlank(lines) != []
    ensures IsSuffix(SkipBlank(lines)[1..], lines)
  {
    BlankSuffix(lines);
    SuffixTransitive(SkipBlank(lines)[1..], SkipBlank(lines), lines);
  }

  /** What is left of the lines of an item, if less than all of them, is left of the lines themselves. */
  lemma ItemSuffix(rest: seq<Line>, lines: seq<Line>)
    requires lines != [] && IsItem(lines[0].text)
    requires IsSuffix(rest, ItemLines(lines)) && |rest| < |lines|
    ensures IsSuffix(rest, lines)
  {
    if lines[0].text == "-" {
      SuffixTransitive(rest, lines[1..], lines);
    } else {
      assert rest == ItemLines(lines)[1..][|lines| - 1 - |rest|..];
      assert ItemLines(lines)[1..] == lines[1..];
      SuffixTransitive(rest, lines[1..], lines);
    }
  }

  /**
   A node either fails or leaves a suffix of the lines, without the lines it is
   read from: if one is there that is indented enough, at least that line is consumed.
   The lines that are left are never the rewritten ones.
   */
  lemma {:induction false} NodeConsumes(lines: seq<Line>, minIndent: nat, anchors: Anchors)
    requires ParseNode(lines, minIndent, anchors).Ok?
    ensures var rest := ParseNode(lines, minIndent, anchors).value.rest;
      && IsSuffix(rest, lines)
      && (Significant(lines, minIndent) ==> |rest| < |lines|)
    decreases |lines|, HeadLength(lines), 2, 0
  {
    hide ParseItems, ParseEntries, ParseInlineValue, SplitKey, IsItem, SkipBlank, IsSuffix;
    var r := SkipBlank(lines);
    if r == [] || r[0].indent < minIndent {
      Whole(lines);
    } else if IsItem(r[0].text) {
      ItemsConsume(lines, r[0].indent, [], anchors);
    } else if SplitKey(r[0].text, r[0].no).value.Some? {
      EntriesConsume(lines, r[0].indent, map[], map[], anchors);
    } else {
      AfterPeeked(lines);
      InlineConsumes(r[0].text, r[0].no, r[1..], anchors);
      SuffixTransitive(ParseNode(lines, minIndent, anchors).value.rest, r[1..], lines);
    }
  }

  lemma Whole(lines: seq<Line>)
    ensures IsSuffix(lines, lines)
  {
    assert lines[0..] == lines;
  }

  lemma {:induction false} ItemsConsume(lines: seq<Line>, indent: nat, items: seq<Value>, anchors: Anchors)
    requires ParseItems(lines, indent, items, anchors).Ok?
    ensures IsSuffix(ParseItems(lines, indent, items, anchors).value.rest, lines)
    decreases |lines|, HeadLength(lines), 1, 0
  {
    hide ParseNode, IsItem, SkipBlank, ItemLines, IsSuffix;
    var r := SkipBlank(lines);
    if r == [] || r[0].indent != indent || !IsItem(r[0].text) {
      Whole(lines);
    } else {
      var item := ParseNode(ItemLines(r), indent + 1, anchors).value;
      NodeConsumes(ItemLines(r), indent + 1, anchors);
      ItemSuffix(item.rest, r);
      BlankSuffix(lines);
      SuffixTransitive(item.rest, r, lines);
      ItemsConsume(item.rest, indent, items + [item.value], item.anchors);
      SuffixTransitive(ParseItems(lines, indent, items, anchors).value.rest, item.rest, lines);
    }
  }

  lemma {:induction false} EntriesConsume(
    lines: seq<Line>, indent: nat, own: map<string, Value>, merged: map<string, Value>, anchors: Anchors)
    requires ParseEntries(lines, indent, own, merged, anchors).Ok?
    ensures IsSuffix(ParseEntries(lines, indent, own, merged, anchors).value.rest, lines)
    decreases |lines|, HeadLength(lines), 1, 0
  {
    hide ParseValueAfterKey, SplitKey, IsMarker, SkipBlank, AddEntry, IsSuffix;
    var r := SkipBlank(lines);
    if r == [] || IsMarker(r[0].text) || r[0].indent < indent {
      Whole(lines);
    } else {
      var entry := SplitKey(r[0].text, r[0].no).value.value;
      var value := ParseValueAfterKey(entry.1, indent, r[0].no, r[1..], anchors).value;
      var fields := AddEntry(entry.0, value.value, own, merged, r[0].no).value;
      AfterPeeked(lines);
      ValueConsumes(entry.1, indent, r[0].no, r[1..], anchors);
      SuffixTransitive(value.rest, r[1..], lines);
      EntriesConsume(value.rest, indent, fields.0, fields.1, value.anchors);
      SuffixTransitive(ParseEntries(lines, indent, own, merged, anchors).value.rest, value.rest, lines);
    }
  }

  lemma {:induction false} ValueConsumes(text: string, keyIndent: nat, no: nat, lines: seq<Line>, anchors: Anchors)
    requires ParseValueAfterKey(text, keyIndent, no, lines, anchors).Ok?
    ensures IsSuffix(ParseValueAfterKey(text, keyIndent, no, lines, anchors).value.rest, lines)
    decreases |lines|, HeadLength(lines), 3, |text|
  {
    hide ParseNode, ParseBlockScalar, ParseInlineValue, IsSuffix;
    if text == "" {
      NodeConsumes(lines, keyIndent + 1, anchors);
    } else if text[0] == '&' {
      var (_, remainder) := SplitWord(text[1..]);
      if remainder == "" {
        NodeConsumes(lines, keyIndent + 1, anchors);
      } else {
        ValueConsumes(remainder, keyIndent, no, lines, anchors);
      }
    } else if text[0] == '|' || text[0] == '>' {
      BlockScalarConsumes(text, keyIndent, no, lines, anchors);
    } else {
      InlineConsumes(text, no, lines, anchors);
    }
  }

  lemma BlockScalarConsumes(header: string, keyIndent: nat, no: nat, lines: seq<Line>, anchors: Anchors)
    requires header != "" && ParseBlockScalar(header, keyIndent, no, lines, anchors).Ok?
    ensures IsSuffix(ParseBlockScalar(header, keyIndent, no, lines, anchors).value.rest, lines)
  {
    hide IsSuffix, CollectBlock, BlockText;
    CollectConsumes(lines, keyIndent, None, []);
  }

  lemma {:induction false} CollectConsumes(lines: seq<Line>, keyIndent: nat, base: Option<nat>, collected: seq<string>)
    ensures var r := CollectBlock(lines, keyIndent, base, collected); r.Ok? ==> IsSuffix(r.value.1, lines)
    decreases |lines|
  {
    if lines == [] {
      Whole(lines);
    } else if lines[0].raw == "" {
      CollectConsumes(lines[1..], keyIndent, base, collected + [""]);
    } else if lines[0].indent > keyIndent {
      var bi := if base.Some? then base.value else lines[0].indent;
      if lines[0].indent >= bi {
        CollectConsumes(lines[1..], keyIndent, Some(bi), collected + [Spaces(lines[0].indent - bi) + lines[0].raw]);
      }
    } else {
      Whole(lines);
    }
  }

  lemma {:induction false} GatherConsumes(buf: string, no: nat, lines: seq<Line>)
    requires GatherFlow(buf, no, lines).Ok?
    ensures IsSuffix(GatherFlow(buf, no, lines).value.1, lines)
    decreases |lines|
  {
    hide SkipBlank, FlowDepth, IsSuffix;
    var r := SkipBlank(lines);
    if FlowDepth(buf, no) == Ok(0) {
      Whole(lines);
    } else {
      AfterPeeked(lines);
      GatherConsumes(buf + " " + r[0].text, no, r[1..]);
      SuffixTransitive(GatherFlow(buf, no, lines).value.1, r[1..], lines);
    }
  }

  lemma {:induction false} InlineConsumes(text: string, no: nat, lines: seq<Line>, anchors: Anchors)
    requires ParseInlineValue(text, no, lines, anchors).Ok?
    ensures IsSuffix(ParseInlineValue(text, no, lines, anchors).value.rest, lines)
    decreases |text|
  {
    hide GatherFlow, ParseFlow, ScalarToken, IsSuffix;
    Whole(lines);
    if text != "" && text[0] == '&' {
      InlineConsumes(SplitWord(text[1..]).1, no, lines, anchors);
    } else if text != "" && IsOpen(text[0]) {
      GatherConsumes(text, no, lines);
    }
  }
}
