/**
 The block structure of the YAML-subset parser, as functions on the lines that
 are still to be read. Each function carries the progress its callers rely on.
 */
module YamlBlock {
  import opened Wrappers
  import opened Text
  import opened YamlScan
  import opened YamlFlow

  // ---- lines ----------------------------------------------------------

  datatype SourceLine = Line(no: nat, indent: nat, text: string, raw: string) {
    /** `text` is a prefix of `raw` that does not end in white space. */
    predicate Sound() {
      text <= raw && (text == "" || !IsWhite(text[|text| - 1]))
    }
  }

  type Line = l: SourceLine | l.Sound() witness SourceLine.Line(0, 0, "", "")

  function ReadLine(source: string, no: nat): Result<Line, Error> {
    var line := StripCr(source);
    var trimmed := SkipSpaces(line);
    if trimmed != "" && trimmed[0] == '\t' then Err(Error(no, TabIndentation))
    else Ok(Line(no, |line| - |trimmed|, TrimEnd(trimmed[..Kept(trimmed, true, OUTSIDE)]), trimmed))
  }

  function ReadLines(sources: seq<string>, no: nat): (r: Result<seq<Line>, Error>)
    ensures r.Ok? ==> |r.value| == |sources|
  {
    if sources == [] then Ok([])
    else
      var line :- ReadLine(sources[0], no);
      var lines :- ReadLines(sources[1..], no + 1);
      Ok([line] + lines)
  }

  /** The lines from the next one that has content. */
  function SkipBlank(lines: seq<Line>): (r: seq<Line>)
    ensures Left(r, lines)
    ensures r != [] ==> r[0].text != ""
    ensures lines != [] && lines[0].text != "" ==> r == lines
  {
    if lines != [] && lines[0].text == "" then SkipBlank(lines[1..]) else lines
  }

  function HeadLength(lines: seq<Line>): nat {
    if lines == [] then 0 else |lines[0].text|
  }

  /** The next line with content exists and is indented at least `minIndent`. */
  predicate Significant(lines: seq<Line>, minIndent: nat) {
    var r := SkipBlank(lines);
    r != [] && r[0].indent >= minIndent
  }

  predicate IsItem(text: string) {
    text == "-" || "- " <= text
  }

  predicate IsMarker(text: string) {
    text == "---" || text == "..."
  }

  /** What is skipped between a dash and its content, counting from the dash. */
  function ContentStart(text: string): (n: nat)
    requires "- " <= text && !IsWhite(text[|text| - 1])
    ensures 2 <= n < |text| && text[n] != ' '
  {
    var content := SkipSpaces(text[2..]);
    assert text[2..] != "" && text[2..][|text| - 3] != ' ';
    SkipSpacesSuffix(text[2..]);
    |text| - |content|
  }

  /** `- content` seen as `content` on a line of its own, right after the dash. */
  function Virtual(l: Line): (v: Line)
    requires "- " <= l.text
    ensures v.text != "" && |v.text| < |l.text|
    ensures v.indent >= l.indent + 2
  {
    var start := ContentStart(l.text);
    Line(l.no, l.indent + start, l.text[start..], l.raw[start..])
  }

  /** The lines from which the item of a dash line is read: those below a bare dash, else with its content first. */
  function ItemLines(lines: seq<Line>): (r: seq<Line>)
    requires lines != [] && IsItem(lines[0].text)
    ensures |r| < |lines|
      || (|r| == |lines| && Significant(r, lines[0].indent + 2) && HeadLength(r) < HeadLength(lines))
  {
    if lines[0].text == "-" then lines[1..] else [Virtual(lines[0])] + lines[1..]
  }

  // ---- nodes ----------------------------------------------------------

  /** A parsed value, the lines left and the anchors known. */
  datatype Out = Out(value: Value, rest: seq<Line>, anchors: Anchors)

  /**
   The node at the next line with content, or null when that line is indented
   less than `minIndent`. A node that is there consumes at least one line.
   */
  function ParseNode(lines: seq<Line>, minIndent: nat, anchors: Anchors): (r: Result<Out, Error>)
    ensures r.Ok? ==> |r.value.rest| <= |lines|
    ensures r.Ok? && Significant(lines, minIndent) ==> |r.value.rest| < |lines|
    decreases |lines|, HeadLength(lines), 2, 0
  {
    var r := SkipBlank(lines);
    if r == [] || r[0].indent < minIndent then Ok(Out(Null, lines, anchors))
    else if IsItem(r[0].text) then ParseItems(lines, r[0].indent, [], anchors)
    else
      var entry :- SplitKey(r[0].text, r[0].no);
      if entry.Some? then ParseEntries(lines, r[0].indent, map[], map[], anchors)
      else ParseInlineValue(r[0].text, r[0].no, r[1..], anchors)
  }

  /** The rest of a block sequence whose first items have been read. */
  function ParseItems(lines: seq<Line>, indent: nat, items: seq<Value>, anchors: Anchors): (r: Result<Out, Error>)
    ensures r.Ok? ==> |r.value.rest| <= |lines|
    ensures r.Ok? && Significant(lines, indent) && SkipBlank(lines)[0].indent == indent && IsItem(SkipBlank(lines)[0].text)
      ==> |r.value.rest| < |lines|
    decreases |lines|, HeadLength(lines), 1, 0
  {
    var r := SkipBlank(lines);
    if r == [] || r[0].indent != indent || !IsItem(r[0].text) then Ok(Out(Array(items), lines, anchors))
    else
      var item :- ParseNode(ItemLines(r), indent + 1, anchors);
      ParseItems(item.rest, indent, items + [item.value], item.anchors)
  }

  /** `own` and `merged` after one more entry; a `<<` entry never overrides what is there. */
  function AddEntry(key: string, value: Value, own: map<string, Value>, merged: map<string, Value>, no: nat)
    : Result<(map<string, Value>, map<string, Value>), Error>
  {
    if key != "<<" then Ok((own[key := value], merged))
    else
      match value
      case Object(m) => Ok((own, m + merged))
      case Array(sources) =>
        var all :- MergeSources(sources, merged, no);
        Ok((own, all))
      case _ => Err(Error(no, BadMergeValue))
  }

  function MergeSources(sources: seq<Value>, merged: map<string, Value>, no: nat): Result<map<string, Value>, Error> {
    if sources == [] then Ok(merged)
    else if !sources[0].Object? then Err(Error(no, BadMergeSource))
    else MergeSources(sources[1..], sources[0].fields + merged, no)
  }

  /** The rest of a block mapping whose first entries have been read. */
  function ParseEntries(
    lines: seq<Line>, indent: nat, own: map<string, Value>, merged: map<string, Value>, anchors: Anchors)
    : (r: Result<Out, Error>)
    ensures r.Ok? ==> |r.value.rest| <= |lines|
    ensures r.Ok? && Significant(lines, indent) && SkipBlank(lines)[0].indent == indent && !IsMarker(SkipBlank(lines)[0].text)
      ==> |r.value.rest| < |lines|
    decreases |lines|, HeadLength(lines), 1, 0
  {
    var r := SkipBlank(lines);
    if r == [] || IsMarker(r[0].text) || r[0].indent < indent then Ok(Out(Object(merged + own), lines, anchors))
    else if r[0].indent > indent then Err(Error(r[0].no, InconsistentIndentation))
    else
      var entry :- SplitKey(r[0].text, r[0].no);
      if entry.None? then Err(Error(r[0].no, ExpectedKey))
      else
        var value :- ParseValueAfterKey(entry.value.1, indent, r[0].no, r[1..], anchors);
        var fields :- AddEntry(entry.value.0, value.value, own, merged, r[0].no);
        ParseEntries(value.rest, indent, fields.0, fields.1, value.anchors)
  }

  /** What follows `key:`, with `lines` the lines after that one. */
  function ParseValueAfterKey(text: string, keyIndent: nat, no: nat, lines: seq<Line>, anchors: Anchors)
    : (r: Result<Out, Error>)
    ensures r.Ok? ==> |r.value.rest| <= |lines|
    decreases |lines|, HeadLength(lines), 3, |text|
  {
    if text == "" then ParseNode(lines, keyIndent + 1, anchors)
    else if text[0] == '&' then
      var (name, remainder) := SplitWord(text[1..]);
      if name == "" then Err(Error(no, AnchorNameMissing))
      else
        var out :-
          if remainder == "" then ParseNode(lines, keyIndent + 1, anchors)
          else ParseValueAfterKey(remainder, keyIndent, no, lines, anchors);
        Ok(out.(anchors := out.anchors[name := out.value]))
    else if text[0] == '|' || text[0] == '>' then ParseBlockScalar(text, keyIndent, no, lines, anchors)
    else ParseInlineValue(text, no, lines, anchors)
  }

  /** `buf` with further lines appended until its brackets balance. */
  function GatherFlow(buf: string, no: nat, lines: seq<Line>): (r: Result<(string, seq<Line>), Error>)
    ensures r.Ok? ==> |r.value.1| <= |lines|
    decreases |lines|
  {
    var depth :- FlowDepth(buf, no);
    if depth == 0 then Ok((buf, lines))
    else
      var r := SkipBlank(lines);
      if r == [] then Err(Error(no, UnclosedFlow)) else GatherFlow(buf + " " + r[0].text, no, r[1..])
  }

  function ParseFlow(buf: string, no: nat, anchors: Anchors): Result<Value, Error> {
    var (value, after) :- FlowValue(buf, anchors, no);
    if SkipSpaces(after) != "" then Err(Error(no, ContentAfterFlow)) else Ok(value)
  }

  /** A value on one line; only a flow collection may go on over `lines`. */
  function ParseInlineValue(text: string, no: nat, lines: seq<Line>, anchors: Anchors): (r: Result<Out, Error>)
    ensures r.Ok? ==> |r.value.rest| <= |lines|
    decreases |text|
  {
    if text != "" && text[0] == '*' then
      var (name, remainder) := SplitWord(text[1..]);
      if remainder != "" then Err(Error(no, ContentAfterAlias))
      else
        var value :- Resolve(name, anchors, no);
        Ok(Out(value, lines, anchors))
    else if text != "" && text[0] == '&' then
      var (name, remainder) := SplitWord(text[1..]);
      if name == "" || remainder == "" then Err(Error(no, AnchorValueMissing))
      else
        var out :- ParseInlineValue(remainder, no, lines, anchors);
        Ok(out.(anchors := out.anchors[name := out.value]))
    else if text != "" && IsOpen(text[0]) then
      var (buf, rest) :- GatherFlow(text, no, lines);
      var value :- ParseFlow(buf, no, anchors);
      Ok(Out(value, rest, anchors))
    else if text != "" && text[0] == '!' then Err(Error(no, Tag))
    else
      var value :- ScalarToken(text, no);
      Ok(Out(value, lines, anchors))
  }

  // ---- block scalars --------------------------------------------------

  datatype Chomp = Clip | Strip | Keep

  /** The chomping indicator of a block scalar header and what follows it. */
  function HeaderChomp(header: string): (Chomp, string)
    requires header != ""
  {
    if |header| > 1 && header[1] == '-' then (Strip, header[2..])
    else if |header| > 1 && header[1] == '+' then (Keep, header[2..])
    else (Clip, header[1..])
  }

  function Spaces(n: nat): (s: string)
    ensures |s| == n && forall k :: 0 <= k < n ==> s[k] == ' '
  {
    seq(n, _ => ' ')
  }

  /** The lines of a block scalar, without the indentation of its first non-blank line. */
  function CollectBlock(lines: seq<Line>, keyIndent: nat, base: Option<nat>, collected: seq<string>)
    : (r: Result<(seq<string>, seq<Line>), Error>)
    ensures r.Ok? ==> |r.value.1| <= |lines|
    decreases |lines|
  {
    if lines == [] then Ok((collected, lines))
    else if lines[0].raw == "" then CollectBlock(lines[1..], keyIndent, base, collected + [""])
    else if lines[0].indent <= keyIndent then Ok((collected, lines))
    else
      var bi := if base.Some? then base.value else lines[0].indent;
      if lines[0].indent < bi then Err(Error(lines[0].no, BadBlockIndentation))
      else CollectBlock(lines[1..], keyIndent, Some(bi), collected + [Spaces(lines[0].indent - bi) + lines[0].raw])
  }

  /** How many of the collected lines precede the trailing blank ones. */
  function ContentLength(collected: seq<string>): (n: nat)
    ensures n <= |collected|
  {
    if collected != [] && collected[|collected| - 1] == "" then ContentLength(collected[..|collected| - 1])
    else |collected|
  }

  function Fold(content: seq<string>, prevBlank: bool): string {
    if content == [] then ""
    else if content[0] == "" then "\n" + Fold(content[1..], true)
    else (if prevBlank then "" else " ") + content[0] + Fold(content[1..], false)
  }

  function BlockText(collected: seq<string>, folded: bool, chomp: Chomp): string {
    var n := ContentLength(collected);
    var body := if folded then Fold(collected[..n], true) else Join(collected[..n], "\n");
    match chomp
    case Strip => body
    case Clip => if body == "" then "" else body + "\n"
    case Keep => body + "\n" + Newlines(|collected| - n)
  }

  function Newlines(n: nat): string {
    seq(n, _ => '\n')
  }

  function ParseBlockScalar(header: string, keyIndent: nat, no: nat, lines: seq<Line>, anchors: Anchors)
    : (r: Result<Out, Error>)
    requires header != ""
    ensures r.Ok? ==> |r.value.rest| <= |lines|
  {
    var (chomp, rest) := HeaderChomp(header);
    if rest != "" && IsDigit(rest[0]) then Err(Error(no, BlockIndentDigit))
    else if Trim(rest) != "" then Err(Error(no, ContentAfterBlockHeader))
    else
      var (collected, left) :- CollectBlock(lines, keyIndent, None, []);
      Ok(Out(String(BlockText(collected, header[0] == '>', chomp)), left, anchors))
  }

  // ---- documents ------------------------------------------------------

  function ParseDocument(lines: seq<Line>): Result<Value, Error> {
    var r := SkipBlank(lines);
    if r != [] && "%" <= r[0].text then Err(Error(r[0].no, Directive))
    else
      var body := if r != [] && r[0].text == "---" then r[1..] else lines;
      var out :- ParseNode(body, 0, map[]);
      var t := SkipBlank(out.rest);
      var u := SkipBlank(if t != [] && t[0].text == "..." then t[1..] else out.rest);
      if u == [] then Ok(out.value)
      else Err(Error(u[0].no, if u[0].text == "---" then MultiDocument else UnexpectedContent))
  }

  /** `from_str`. */
  function FromStr(input: string): Result<Value, Error> {
    var lines :- ReadLines(Lines(input), 1);
    ParseDocument(lines)
  }
}
