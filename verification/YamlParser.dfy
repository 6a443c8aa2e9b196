/** The parser itself: an object that moves through its lines and rewrites the current one. */
module YamlParser {
  import opened Wrappers
  import opened Text
  import opened YamlScan
  import opened YamlFlow
  import opened YamlBlock

  /** The parser's answer and the state it is left in are those of the specification. */
  ghost predicate Agrees(spec: Result<Out, Error>, r: Result<Value, Error>, rest: seq<Line>, anchors: Anchors) {
    match spec
    case Ok(out) => r == Ok(out.value) && rest == out.rest && anchors == out.anchors
    case Err(e) => r == Err(e)
  }

  // ---- loops over maps ------------------------------------------------

  /** Every entry of `m` whose key is not in `merged` yet. */
  method OrInsertAll(m: map<string, Value>, merged: map<string, Value>) returns (r: map<string, Value>)
    ensures r == m + merged
  {
    r := merged;
    var keys := m.Keys;
    while keys != {}
      invariant keys <= m.Keys
      invariant r == (map k | k in m.Keys - keys :: m[k]) + merged
    {
      var k :| k in keys;
      if k !in r {
        r := r[k := m[k]];
      }
      keys := keys - {k};
    }
    assert (map k | k in m.Keys - {} :: m[k]) == m;
  }

  method InsertAll(merged: map<string, Value>, own: map<string, Value>) returns (r: map<string, Value>)
    ensures r == merged + own
  {
    r := merged;
    var keys := own.Keys;
    while keys != {}
      invariant keys <= own.Keys
      invariant r == merged + (map k | k in own.Keys - keys :: own[k])
    {
      var k :| k in keys;
      r := r[k := own[k]];
      keys := keys - {k};
    }
    assert (map k | k in own.Keys - {} :: own[k]) == own;
  }

  method MergeAll(sources: seq<Value>, merged: map<string, Value>, no: nat)
    returns (r: Result<map<string, Value>, Error>)
    ensures r == MergeSources(sources, merged, no)
  {
    var all := merged;
    for i := 0 to |sources|
      invariant MergeSources(sources, merged, no) == MergeSources(sources[i..], all, no)
    {
      if !sources[i].Object? {
        return Err(Error(no, BadMergeSource));
      }
      assert sources[i..][1..] == sources[i + 1..];
      all := OrInsertAll(sources[i].fields, all);
    }
    r := Ok(all);
  }

  method LexLine(source: string, no: nat) returns (r: Result<Line, Error>)
    ensures r == ReadLine(source, no)
  {
    var line := StripCr(source);
    var trimmed := SkipSpaces(line);
    if trimmed != "" && trimmed[0] == '\t' {
      return Err(Error(no, TabIndentation));
    }
    var kept := StripComment(trimmed);
    r := Ok(SourceLine.Line(no, |line| - |trimmed|, TrimEnd(kept), trimmed));
  }

  /** The lines of a document, each with its indentation and without its comment. */
  method Lex(input: string) returns (r: Result<seq<Line>, Error>)
    ensures r == ReadLines(Lines(input), 1)
  {
    hide Lines, ReadLine;
    var sources := Lines(input);
    var lines: seq<Line> := [];
    ghost var spec := ReadLines(sources, 1);
    assert sources[0..] == sources && (spec.Ok? ==> [] + spec.value == spec.value);
    for i := 0 to |sources|
      invariant var tail := ReadLines(sources[i..], i + 1);
        if tail.Ok? then spec == Ok(lines + tail.value) else spec == tail
    {
      var line := LexLine(sources[i], i + 1);
      if line.Err? {
        return Err(line.error);
      }
      assert sources[i..][1..] == sources[i + 1..];
      ghost var tail := ReadLines(sources[i + 1..], i + 2);
      assert tail.Ok? ==> lines + ([line.value] + tail.value) == lines + [line.value] + tail.value;
      lines := lines + [line.value];
    }
    assert sources[|sources|..] == [] && lines + [] == lines;
    r := Ok(lines);
  }

  class Parser {
    var lines: seq<Line>
    var pos: nat
    var anchors: Anchors

    ghost predicate Valid()
      reads this
    {
      pos <= |lines|
    }

    /** The lines still to be read. */
    ghost function Rest(): seq<Line>
      reads this
      requires Valid()
    {
      lines[pos..]
    }

    constructor (lines: seq<Line>)
      ensures Valid() && Rest() == lines && anchors == map[]
    {
      this.lines := lines;
      pos := 0;
      anchors := map[];
    }

    /** The next line with content, without moving to it. */
    method Peek() returns (line: Option<Line>)
      requires Valid()
      ensures line == if SkipBlank(Rest()) == [] then None else Some(SkipBlank(Rest())[0])
    {
      for i := pos to |lines|
        invariant SkipBlank(Rest()) == SkipBlank(lines[i..])
      {
        if lines[i].text != "" {
          return Some(lines[i]);
        }
        assert lines[i..][1..] == lines[i + 1..];
      }
      line := None;
    }

    method AdvanceToPeeked()
      requires Valid()
      modifies this`pos
      ensures Valid() && Rest() == SkipBlank(old(Rest()))
    {
      while pos < |lines| && lines[pos].text == ""
        invariant Valid() && SkipBlank(Rest()) == SkipBlank(old(Rest()))
      {
        assert Rest()[1..] == lines[pos + 1..];
        pos := pos + 1;
      }
    }

    /** Past the line that `Peek` shows. */
    method SkipPeeked()
      requires Valid() && SkipBlank(Rest()) != []
      modifies this`pos
      ensures Valid() && Rest() == SkipBlank(old(Rest()))[1..]
    {
      AdvanceToPeeked();
      ghost var r := Rest();
      pos := pos + 1;
      assert Rest() == r[1..];
    }

    method ParseDocument() returns (r: Result<Value, Error>)
      requires Valid() && anchors == map[]
      modifies this
      ensures r == YamlBlock.ParseDocument(old(Rest()))
    {
      hide YamlBlock.ParseNode, SkipBlank;
      var first := Peek();
      if first.Some? {
        if first.value.text == "---" {
          assert first.value.text[0] != '%';
          SkipPeeked();
        } else if "%" <= first.value.text {
          return Err(Error(first.value.no, Directive));
        }
      }
      var value := ParseNode(0);
      if value.Err? {
        return value;
      }
      var end := Peek();
      if end.Some? && end.value.text == "..." {
        SkipPeeked();
      }
      var extra := Peek();
      if extra.Some? {
        return Err(Error(extra.value.no, if extra.value.text == "---" then MultiDocument else UnexpectedContent));
      }
      r := value;
    }

    method ParseNode(minIndent: nat) returns (r: Result<Value, Error>)
      requires Valid()
      modifies this
      ensures Valid()
      ensures Agrees(YamlBlock.ParseNode(old(Rest()), minIndent, old(anchors)), r, Rest(), anchors)
      decreases |Rest()|, HeadLength(Rest()), 2, 0
    {
      hide YamlBlock.ParseItems, YamlBlock.ParseEntries, YamlBlock.ParseInlineValue, SkipBlank, SplitKey, IsItem;
      var peeked := Peek();
      if peeked.None? || peeked.value.indent < minIndent {
        return Ok(Null);
      }
      var line := peeked.value;
      if IsItem(line.text) {
        r := ParseSequence(line.indent);
        return;
      }
      var entry := ComputeSplitKey(line.text, line.no);
      if entry.Err? {
        return Err(entry.error);
      }
      if entry.value.Some? {
        r := ParseMapping(line.indent);
        return;
      }
      SkipPeeked();
      r := ParseInlineValue(line.text, line.no);
    }

    method ParseMapping(indent: nat) returns (r: Result<Value, Error>)
      requires Valid()
      modifies this
      ensures Valid()
      ensures Agrees(YamlBlock.ParseEntries(old(Rest()), indent, map[], map[], old(anchors)), r, Rest(), anchors)
      decreases |Rest()|, HeadLength(Rest()), 1, 0
    {
      hide YamlBlock.ParseValueAfterKey, SkipBlank, SplitKey, IsMarker;
      ghost var spec := YamlBlock.ParseEntries(Rest(), indent, map[], map[], anchors);
      var own: map<string, Value> := map[];
      var merged: map<string, Value> := map[];
      while true
        invariant Valid() && |Rest()| <= old(|Rest()|)
        invariant YamlBlock.ParseEntries(Rest(), indent, own, merged, anchors) == spec
        decreases |Rest()|
      {
        var peeked := Peek();
        if peeked.None? {
          break;
        }
        var line := peeked.value;
        if IsMarker(line.text) {
          break;
        }
        if line.indent != indent {
          if line.indent > indent {
            return Err(Error(line.no, InconsistentIndentation));
          }
          break;
        }
        var entry := ComputeSplitKey(line.text, line.no);
        if entry.Err? {
          return Err(entry.error);
        }
        if entry.value.None? {
          return Err(Error(line.no, ExpectedKey));
        }
        var (key, rest) := entry.value.value;
        SkipPeeked();
        var value := ParseValueAfterKey(rest, indent, line.no);
        if value.Err? {
          return value;
        }
        if key == "<<" {
          var all: Result<map<string, Value>, Error>;
          match value.value {
            case Object(m) =>
              var union := OrInsertAll(m, merged);
              all := Ok(union);
            case Array(sources) =>
              all := MergeAll(sources, merged, line.no);
            case _ =>
              all := Err(Error(line.no, BadMergeValue));
          }
          if all.Err? {
            return Err(all.error);
          }
          merged := all.value;
        } else {
          own := own[key := value.value];
        }
      }
      if merged == map[] {
        assert merged + own == own;
        return Ok(Object(own));
      }
      var all := InsertAll(merged, own);
      r := Ok(Object(all));
    }

    /** Moves past a bare dash; otherwise the current line becomes its own content. */
    method EnterItem(line: Line)
      requires Valid() && Rest() != [] && Rest()[0] == line && IsItem(line.text)
      modifies this`lines, this`pos
      ensures Valid() && Rest() == ItemLines(old(Rest()))
      ensures |lines| == old(|lines|)
    {
      if line.text == "-" {
        pos := pos + 1;
      } else {
        lines := lines[pos := Virtual(line)];
      }
    }

    method ParseSequence(indent: nat) returns (r: Result<Value, Error>)
      requires Valid()
      modifies this
      ensures Valid()
      ensures Agrees(YamlBlock.ParseItems(old(Rest()), indent, [], old(anchors)), r, Rest(), anchors)
      decreases |Rest()|, HeadLength(Rest()), 1, 0
    {
      hide YamlBlock.ParseNode, SkipBlank, ItemLines, IsItem;
      ghost var spec := YamlBlock.ParseItems(Rest(), indent, [], anchors);
      var items: seq<Value> := [];
      while true
        invariant Valid()
        invariant |Rest()| < old(|Rest()|) || Rest() == old(Rest())
        invariant YamlBlock.ParseItems(Rest(), indent, items, anchors) == spec
        decreases |Rest()|
      {
        var peeked := Peek();
        if peeked.None? || peeked.value.indent != indent || !IsItem(peeked.value.text) {
          break;
        }
        var line := peeked.value;
        AdvanceToPeeked();
        EnterItem(line);
        var item := ParseNode(indent + 1);
        if item.Err? {
          return item;
        }
        items := items + [item.value];
      }
      r := Ok(Array(items));
    }

    method ParseValueAfterKey(text: string, keyIndent: nat, no: nat) returns (r: Result<Value, Error>)
      requires Valid()
      modifies this
      ensures Valid()
      ensures Agrees(YamlBlock.ParseValueAfterKey(text, keyIndent, no, old(Rest()), old(anchors)), r, Rest(), anchors)
      decreases |Rest()|, HeadLength(Rest()), 3, |text|
    {
      hide YamlBlock.ParseNode, YamlBlock.ParseBlockScalar, YamlBlock.ParseInlineValue;
      if text == "" {
        r := ParseNode(keyIndent + 1);
      } else if text[0] == '&' {
        var (name, remainder) := SplitWord(text[1..]);
        if name == "" {
          return Err(Error(no, AnchorNameMissing));
        }
        if remainder == "" {
          r := ParseNode(keyIndent + 1);
        } else {
          r := ParseValueAfterKey(remainder, keyIndent, no);
        }
        if r.Ok? {
          anchors := anchors[name := r.value];
        }
      } else if text[0] == '|' || text[0] == '>' {
        r := ParseBlockScalar(text, keyIndent, no);
      } else {
        r := ParseInlineValue(text, no);
      }
    }

    method ParseInlineValue(text: string, no: nat) returns (r: Result<Value, Error>)
      requires Valid()
      modifies this
      ensures Valid()
      ensures Agrees(YamlBlock.ParseInlineValue(text, no, old(Rest()), old(anchors)), r, Rest(), anchors)
      decreases |text|
    {
      hide ScalarToken;
      if text != "" && text[0] == '*' {
        var (name, remainder) := SplitWord(text[1..]);
        if remainder != "" {
          return Err(Error(no, ContentAfterAlias));
        }
        return Resolve(name, anchors, no);
      }
      if text != "" && text[0] == '&' {
        var (name, remainder) := SplitWord(text[1..]);
        if name == "" || remainder == "" {
          return Err(Error(no, AnchorValueMissing));
        }
        r := ParseInlineValue(remainder, no);
        if r.Ok? {
          anchors := anchors[name := r.value];
        }
        return;
      }
      if text != "" && IsOpen(text[0]) {
        var buf := Gather(text, no);
        if buf.Err? {
          return Err(buf.error);
        }
        r := ReadFlow(buf.value, no);
        return;
      }
      if text != "" && text[0] == '!' {
        return Err(Error(no, Tag));
      }
      r := ScalarToken(text, no);
    }

    /** Appends further lines until the brackets balance. */
    method Gather(text: string, no: nat) returns (r: Result<string, Error>)
      requires Valid()
      modifies this`pos
      ensures Valid()
      ensures match GatherFlow(text, no, old(Rest()))
        case Ok((buf, rest)) => r == Ok(buf) && Rest() == rest
        case Err(e) => r == Err(e)
    {
      hide FlowDepth, SkipBlank;
      var buf := text;
      ghost var spec := GatherFlow(text, no, Rest());
      while true
        invariant Valid() && GatherFlow(buf, no, Rest()) == spec
        decreases |Rest()|
      {
        var depth := ComputeFlowDepth(buf, no);
        if depth.Err? {
          return Err(depth.error);
        }
        if depth.value == 0 {
          return Ok(buf);
        }
        var line := Peek();
        if line.None? {
          return Err(Error(no, UnclosedFlow));
        }
        SkipPeeked();
        buf := buf + " " + line.value.text;
      }
    }

    method ReadFlow(buf: string, no: nat) returns (r: Result<Value, Error>)
      requires Valid()
      ensures r == ParseFlow(buf, no, anchors)
    {
      var flow := new FlowParser(buf, no, anchors);
      r := flow.ParseValue();
      if r.Ok? {
        flow.Skip();
        if flow.pos < |flow.chars| {
          return Err(Error(no, ContentAfterFlow));
        }
      }
    }

    method ParseBlockScalar(header: string, keyIndent: nat, no: nat) returns (r: Result<Value, Error>)
      requires Valid() && header != ""
      modifies this`pos
      ensures Valid()
      ensures Agrees(YamlBlock.ParseBlockScalar(header, keyIndent, no, old(Rest()), anchors), r, Rest(), anchors)
    {
      hide BlockText;
      var (chomp, rest) := HeaderChomp(header);
      if rest != "" && IsDigit(rest[0]) {
        return Err(Error(no, BlockIndentDigit));
      }
      if Trim(rest) != "" {
        return Err(Error(no, ContentAfterBlockHeader));
      }
      var lines := Collect(keyIndent);
      if lines.Err? {
        return Err(lines.error);
      }
      var body := Chomped(lines.value, header[0] == '>', chomp);
      r := Ok(String(body));
    }

    /** The raw lines deeper than the key; blank ones belong to the scalar. */
    method Collect(keyIndent: nat) returns (r: Result<seq<string>, Error>)
      requires Valid()
      modifies this`pos
      ensures Valid()
      ensures match CollectBlock(old(Rest()), keyIndent, None, [])
        case Ok((collected, rest)) => r == Ok(collected) && Rest() == rest
        case Err(e) => r == Err(e)
    {
      var collected: seq<string> := [];
      var base: Option<nat> := None;
      ghost var spec := CollectBlock(Rest(), keyIndent, None, []);
      while pos < |lines|
        invariant Valid() && CollectBlock(Rest(), keyIndent, base, collected) == spec
      {
        var line := lines[pos];
        ghost var s := Rest();
        assert s[0] == line && s[1..] == lines[pos + 1..];
        if line.raw == "" {
          collected := collected + [""];
          pos := pos + 1;
          continue;
        }
        if line.indent <= keyIndent {
          break;
        }
        var bi := if base.Some? then base.value else line.indent;
        base := Some(bi);
        if line.indent < bi {
          return Err(Error(line.no, BadBlockIndentation));
        }
        collected := collected + [Spaces(line.indent - bi) + line.raw];
        pos := pos + 1;
      }
      r := Ok(collected);
    }
  }

  /** The text of the collected lines. */
  method Chomped(collected: seq<string>, folded: bool, chomp: Chomp) returns (body: string)
    ensures body == BlockText(collected, folded, chomp)
  {
    hide ContentLength, Fold, Join;
    var n := CountContent(collected);
    if folded {
      body := FoldLines(collected[..n]);
    } else {
      body := Join(collected[..n], "\n");
    }
    match chomp {
      case Strip =>
      case Clip =>
        if body != "" {
          body := body + "\n";
        }
      case Keep =>
        body := body + "\n" + Newlines(|collected| - n);
    }
  }

  method CountContent(collected: seq<string>) returns (n: nat)
    ensures n == ContentLength(collected)
  {
    n := |collected|;
    assert collected[..n] == collected;
    while n > 0 && collected[n - 1] == ""
      invariant n <= |collected|
      invariant ContentLength(collected[..n]) == ContentLength(collected)
    {
      assert collected[..n][..n - 1] == collected[..n - 1];
      n := n - 1;
    }
  }

  method FoldLines(content: seq<string>) returns (out: string)
    ensures out == Fold(content, true)
  {
    out := "";
    var prevBlank := true;
    for i := 0 to |content|
      invariant Fold(content, true) == out + Fold(content[i..], prevBlank)
    {
      assert content[i..][1..] == content[i + 1..];
      if content[i] == "" {
        out := out + "\n";
        prevBlank := true;
      } else {
        if !prevBlank {
          out := out + " ";
        }
        out := out + content[i];
        prevBlank := false;
      }
    }
  }

  /** `from_str`. */
  method Parse(input: string) returns (r: Result<Value, Error>)
    ensures r == FromStr(input)
  {
    var lines := Lex(input);
    if lines.Err? {
      return Err(lines.error);
    }
    var parser := new Parser(lines.value);
    r := parser.ParseDocument();
  }
}
