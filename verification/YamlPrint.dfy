/**
 A printer for trees of YAML values: flow text on one or more lines, and block
 text with anchors, aliases and merge keys, all read back by `YamlBlock.FromStr`.
 */
module YamlPrint {
  import opened Wrappers
  import opened Text
  import opened YamlScan
  import opened YamlBlock
  import opened YamlMerge
  import opened YamlScalars

  /**
   The spaces of a flow collection: behind its opening bracket and each comma,
   in front of each comma and colon, behind each colon; and a comma at its end.
   */
  datatype Layout = Layout(inside: nat, before: nat, behind: nat, trailing: bool)

  datatype Field = Field(key: Scalar, json: Json)

  datatype Row = Row(indent: nat, text: string)

  /** `key: &anchor tree` */
  datatype Entry = Entry(key: Scalar, anchor: Option<string>, tree: Tree)

  /** What flow text can say; the fields of an object are in printing order. */
  datatype Json =
    | JNull
    | JBool(b: bool)
    | JInt(n: int)
    | JStr(scalar: Scalar)
    | JAlias(name: string)
    | JArr(items: seq<Json>, layout: Layout)
    | JObj(fields: seq<Field>, layout: Layout)
  {
    ghost predicate Valid() {
      match this
      case JInt(n) => I64_MIN <= n <= I64_MAX
      case JStr(s) => IsFlowScalar(s) && (s.style.Bare? ==> IsStringText(s.text))
      case JAlias(name) => IsName(name)
      case JArr(items, _) => forall i | 0 <= i < |items| :: items[i].Valid()
      case JObj(fields, layout) =>
        forall i | 0 <= i < |fields| ::
          IsFlowScalar(fields[i].key) && (fields[i].key.style.Bare? ==> layout.behind > 0) && fields[i].json.Valid()
      case _ => true
    }

    predicate IsCollection() {
      JArr? || JObj?
    }
  }

  /**
   A document in block style. A leaf stands on one line; a flow collection may
   be spread over several. The items of a sequence follow their dash on its
   line or, if not `compact`, below, `step` columns further; so do the nodes of
   a mapping below their keys.
   */
  datatype Tree =
    | Empty
    | Leaf(json: Json)
    | Plain(text: string)
    | Spread(json: Json, first: string, more: seq<Row>)
    | Sequence(items: seq<Tree>, compact: bool, step: nat)
    | Mapping(entries: seq<Entry>, step: nat)
  {
    ghost predicate Valid() {
      match this
      case Empty => true
      case Leaf(json) => json.Valid() && (json.JStr? && json.scalar.style.Bare? ==> IsBlockPlain(json.scalar.text))
      case Plain(text) => IsBlockPlain(text)
      case Spread(json, first, more) =>
        && json.Valid() && json.IsCollection()
        && first + MoreText(more) == FlowText(json, "")
        && IsLineText(first) && forall i | 0 <= i < |more| :: IsLineText(more[i].text)
      case Sequence(items, _, step) =>
        items != [] && step > 0 && forall i | 0 <= i < |items| :: items[i].Valid()
      case Mapping(entries, step) =>
        entries != [] && step > 0 && forall i | 0 <= i < |entries| :: IsEntry(entries[i]) && entries[i].tree.Valid()
    }
  }

  // ---- what can be written --------------------------------------------

  /** Text that keeps both its ends, its line, and all of its characters when it is read as a line. */
  ghost predicate IsLineText(s: string) {
    s != "" && !IsWhite(s[0]) && !IsWhite(s[|s| - 1]) && '\n' !in s && Crossed(s)
  }

  /** A plain scalar in block style: no key, no other kind of node, no core-schema word or number. */
  ghost predicate IsBlockPlain(s: string) {
    && IsLineText(s) && NoKeyEnd(s) && IsStringText(s)
    && s[0] !in {'[', '{', '#', '"', '\'', '*', '&', '!', '|', '>', '%'}
    && s !in {"-", "---", "..."} && !("- " <= s)
  }

  /** A plain key in block style. */
  ghost predicate IsBlockKey(s: string) {
    && IsLineText(s) && StartsPlain(s) && s[0] != '%' && !("- " <= s)
    && forall i | 0 <= i < |s| - 1 :: !EndsKey(s, i)
  }

  /** A comma or closing bracket, or a colon in front of one, of a space or of the end. */
  predicate Separates(s: string, i: nat)
    requires i < |s|
  {
    || s[i] in {',', ']', '}'}
    || (s[i] == ':' && (i + 1 == |s| || s[i + 1] in {' ', ',', ']', '}'}))
  }

  predicate EndsToken(s: string, i: nat)
    requires i < |s|
  {
    s[i] == '[' || s[i] == '{' || Separates(s, i)
  }

  /** A plain scalar or key in flow style. */
  predicate IsFlowPlain(s: string) {
    && s != "" && !IsWhite(s[0]) && !IsWhite(s[|s| - 1]) && s[0] != '*'
    && '\n' !in s && QuoteFree(s) && NoComment(s)
    && forall i | 0 <= i < |s| :: !EndsToken(s, i)
  }

  /** A scalar that fits its style, which on one line only double quotes do for all texts. */
  predicate IsFlowScalar(s: Scalar) {
    match s.style
    case Bare => IsFlowPlain(s.text)
    case Single => '\n' !in s.text
    case Double => true
  }

  /** The name of an anchor. */
  predicate IsName(s: string) {
    s != "" && forall c | c in s :: !IsWhite(c) && c !in {',', '[', ']', '{', '}', ':', '\'', '"', '#'}
  }

  /** A key that fits its style. */
  ghost predicate IsKey(key: Scalar) {
    match key.style
    case Bare => IsBlockKey(key.text)
    case Single => '\n' !in key.text
    case Double => true
  }

  ghost predicate IsEntry(e: Entry) {
    IsKey(e.key) && (e.anchor.Some? ==> IsName(e.anchor.value))
  }

  // ---- the values meant -----------------------------------------------

  /** `fields` with the given pairs inserted in order. */
  function AddAll(fields: map<string, Value>, pairs: seq<(string, Value)>): map<string, Value>
    decreases |pairs|
  {
    if pairs == [] then fields else AddAll(fields[pairs[0].0 := pairs[0].1], pairs[1..])
  }

  ghost predicate DistinctKeys<T>(pairs: seq<(string, T)>) {
    forall i, j | 0 <= i < j < |pairs| :: pairs[i].0 != pairs[j].0
  }

  /** With distinct keys the object holds exactly the pairs. */
  lemma {:induction false} AddAllHolds(fields: map<string, Value>, pairs: seq<(string, Value)>)
    requires DistinctKeys(pairs)
    ensures var all := AddAll(fields, pairs);
      && all.Keys == fields.Keys + (set i | 0 <= i < |pairs| :: pairs[i].0)
      && (forall i | 0 <= i < |pairs| :: all[pairs[i].0] == pairs[i].1)
      && (forall k | k in fields && (forall i | 0 <= i < |pairs| :: pairs[i].0 != k) :: all[k] == fields[k])
    decreases |pairs|
  {
    if pairs == [] {
    } else {
      var rest := pairs[1..];
      var next := fields[pairs[0].0 := pairs[0].1];
      AddAllHolds(next, rest);
      assert forall i | 0 <= i < |rest| :: rest[i].0 == pairs[i + 1].0;
      assert (set i | 0 <= i < |pairs| :: pairs[i].0) == {pairs[0].0} + (set i | 0 <= i < |rest| :: rest[i].0) by {
        assert forall i | 0 < i < |pairs| :: pairs[i] == rest[i - 1];
      }
      forall i | 0 <= i < |pairs|
        ensures AddAll(fields, pairs)[pairs[i].0] == pairs[i].1
      {
        if i > 0 {
          assert rest[i - 1] == pairs[i];
        }
      }
    }
  }

  /** The value of a node with the anchors known so far. */
  function JsonValue(j: Json, anchors: Anchors): Value
    decreases j, 1
  {
    match j
    case JNull => Null
    case JBool(b) => Bool(b)
    case JInt(n) => Number(n)
    case JStr(s) => String(s.text)
    case JAlias(name) => if name in anchors then anchors[name] else Null
    case JArr(items, _) => Array(JsonValues(items, anchors))
    case JObj(fields, _) => Object(AddAll(map[], FieldValues(fields, anchors)))
  }

  function JsonValues(items: seq<Json>, anchors: Anchors): seq<Value>
    decreases items, 0
  {
    if items == [] then [] else [JsonValue(items[0], anchors)] + JsonValues(items[1..], anchors)
  }

  function FieldValues(fields: seq<Field>, anchors: Anchors): seq<(string, Value)>
    decreases fields, 0
  {
    if fields == [] then [] else [FieldValue(fields[0], anchors)] + FieldValues(fields[1..], anchors)
  }

  function FieldValue(f: Field, anchors: Anchors): (string, Value)
    decreases f, 0
  {
    (f.key.text, JsonValue(f.json, anchors))
  }

  /** Every alias names an anchor that is known. */
  ghost predicate JsonResolves(j: Json, anchors: Anchors) {
    match j
    case JAlias(name) => name in anchors
    case JArr(items, _) => forall i | 0 <= i < |items| :: JsonResolves(items[i], anchors)
    case JObj(fields, _) => forall i | 0 <= i < |fields| :: JsonResolves(fields[i].json, anchors)
    case _ => true
  }

  /** The value of a tree, and the anchors known behind it. */
  function TreeValue(t: Tree, anchors: Anchors): (Value, Anchors)
    decreases t, 1
  {
    match t
    case Empty => (Null, anchors)
    case Leaf(json) => (JsonValue(json, anchors), anchors)
    case Plain(text) => (String(text), anchors)
    case Spread(json, _, _) => (JsonValue(json, anchors), anchors)
    case Sequence(items, _, _) =>
      var (values, known) := TreeValues(items, anchors);
      (Array(values), known)
    case Mapping(entries, _) =>
      var (mets, known) := EntryValues(entries, anchors);
      (Object(FieldsOf(mets)), known)
  }

  function TreeValues(items: seq<Tree>, anchors: Anchors): (seq<Value>, Anchors)
    decreases items, 0
  {
    if items == [] then ([], anchors)
    else
      var (value, known) := TreeValue(items[0], anchors);
      var (values, all) := TreeValues(items[1..], known);
      ([value] + values, all)
  }

  /** An entry's value; its anchor is known only behind it. */
  function EntryValue(e: Entry, anchors: Anchors): (Value, Anchors)
    decreases e, 0
  {
    var (value, known) := TreeValue(e.tree, anchors);
    (value, if e.anchor.Some? then known[e.anchor.value := value] else known)
  }

  function EntryValues(entries: seq<Entry>, anchors: Anchors): (seq<Met>, Anchors)
    decreases entries, 1
  {
    if entries == [] then ([], anchors)
    else
      var (value, known) := EntryValue(entries[0], anchors);
      var (mets, all) := EntryValues(entries[1..], known);
      ([Met(entries[0].key.text, value, 0)] + mets, all)
  }

  /** Every alias names an anchor that is known where it stands, and every merge key is given mappings. */
  ghost predicate Resolves(t: Tree, anchors: Anchors)
    decreases t, 1
  {
    match t
    case Leaf(json) => JsonResolves(json, anchors)
    case Spread(json, _, _) => JsonResolves(json, anchors)
    case Sequence(items, _, _) => ItemsResolve(items, anchors)
    case Mapping(entries, _) => EntriesResolve(entries, anchors)
    case _ => true
  }

  ghost predicate ItemsResolve(items: seq<Tree>, anchors: Anchors)
    decreases items, 0
  {
    items != [] ==>
      Resolves(items[0], anchors) && ItemsResolve(items[1..], TreeValue(items[0], anchors).1)
  }

  ghost predicate EntriesResolve(entries: seq<Entry>, anchors: Anchors)
    decreases entries, 0
  {
    entries != [] ==> EntryResolves(entries[0], anchors) && EntriesResolve(entries[1..], EntryValue(entries[0], anchors).1)
  }

  ghost predicate EntryResolves(e: Entry, anchors: Anchors)
    decreases e, 0
  {
    Resolves(e.tree, anchors) && (e.key.text == "<<" ==> AreMappings(EntryValue(e, anchors).0))
  }

  // ---- flow text ------------------------------------------------------

  /** `null`, a boolean or an integer. */
  function WordText(j: Json): string
    requires j.JNull? || j.JBool? || j.JInt?
  {
    match j
    case JNull => "null"
    case JBool(b) => if b then "true" else "false"
    case JInt(n) => IntText(n)
  }

  /** The text of a value, followed by `tail`. */
  function FlowText(j: Json, tail: string): string
    decreases j, 1
  {
    match j
    case JStr(s) => ScalarText(s) + tail
    case JAlias(name) => "*" + (name + tail)
    case JArr(items, layout) => "[" + ItemsText(items, layout, tail)
    case JObj(fields, layout) => "{" + FieldsText(fields, layout, tail)
    case _ => WordText(j) + tail
  }

  function ItemsText(items: seq<Json>, layout: Layout, tail: string): string
    decreases items, 1
  {
    Spaces(layout.inside)
    + if items == [] then "]" + tail else FlowText(items[0], MoreItemsText(items[1..], layout, tail))
  }

  function MoreItemsText(items: seq<Json>, layout: Layout, tail: string): string
    decreases items, 2
  {
    if items == [] && !layout.trailing then ItemsText(items, layout, tail)
    else Spaces(layout.before) + ("," + ItemsText(items, layout, tail))
  }

  function FieldsText(fields: seq<Field>, layout: Layout, tail: string): string
    decreases fields, 1
  {
    Spaces(layout.inside)
    + if fields == [] then "}" + tail else FieldText(fields[0], layout, MoreFieldsText(fields[1..], layout, tail))
  }

  function MoreFieldsText(fields: seq<Field>, layout: Layout, tail: string): string
    decreases fields, 2
  {
    if fields == [] && !layout.trailing then FieldsText(fields, layout, tail)
    else Spaces(layout.before) + ("," + FieldsText(fields, layout, tail))
  }

  function FieldText(f: Field, layout: Layout, tail: string): string
    decreases f, 0
  {
    KeyText(f.key, layout, FlowText(f.json, tail))
  }

  /** A key in front of the text of its value. */
  function KeyText(key: Scalar, layout: Layout, value: string): string {
    ScalarText(key) + ColonText(layout, value)
  }

  function ColonText(layout: Layout, value: string): string {
    Spaces(layout.before) + (":" + (Spaces(layout.behind) + value))
  }

  // ---- block text -----------------------------------------------------

  /** Lines that go on behind a space each. */
  function MoreText(rows: seq<Row>): string {
    if rows == [] then "" else " " + (rows[0].text + MoreText(rows[1..]))
  }

  /** What of a tree can stand behind a key. */
  function Inline(t: Tree): string {
    match t
    case Leaf(json) => FlowText(json, "")
    case Plain(text) => text
    case Spread(_, first, _) => first
    case _ => ""
  }

  function Rows(t: Tree, indent: nat): seq<Row>
    decreases t, 1
  {
    match t
    case Empty => []
    case Leaf(_) => [Row(indent, Inline(t))]
    case Plain(_) => [Row(indent, Inline(t))]
    case Spread(_, _, more) => [Row(indent, Inline(t))] + more
    case Sequence(items, compact, step) => ItemRows(items, compact, step, indent)
    case Mapping(entries, step) => EntryRows(entries, step, indent)
  }

  /** How much deeper than its dash an item is. */
  function Offset(compact: bool, step: nat): nat {
    if compact then step + 1 else step
  }

  function ItemRows(items: seq<Tree>, compact: bool, step: nat, indent: nat): seq<Row>
    decreases items, 0
  {
    if items == [] then []
    else
      Dash(Rows(items[0], indent + Offset(compact, step)), compact, step, indent)
      + ItemRows(items[1..], compact, step, indent)
  }

  /** The rows of an item behind, or below, its dash. */
  function Dash(rows: seq<Row>, compact: bool, step: nat, indent: nat): seq<Row> {
    if compact && rows != [] then [Row(indent, "-" + (Spaces(step) + rows[0].text))] + rows[1..]
    else [Row(indent, "-")] + rows
  }

  function EntryRows(entries: seq<Entry>, step: nat, indent: nat): seq<Row>
    decreases entries, 1
  {
    if entries == [] then []
    else [KeyRow(entries[0], indent)] + (Below(entries[0], step, indent) + EntryRows(entries[1..], step, indent))
  }

  /** The anchor of an entry and what of its tree can stand behind the key. */
  function ValueText(e: Entry): string {
    match e.anchor
    case None => Inline(e.tree)
    case Some(name) => "&" + (name + if Inline(e.tree) == "" then "" else " " + Inline(e.tree))
  }

  function KeyRow(e: Entry, indent: nat): Row {
    Row(indent, ScalarText(e.key) + (":" + if ValueText(e) == "" then "" else " " + ValueText(e)))
  }

  /** What of the tree stands below the key. */
  function Below(e: Entry, step: nat, indent: nat): seq<Row>
    decreases e, 0
  {
    match e.tree
    case Sequence(_, _, _) => Rows(e.tree, indent + step)
    case Mapping(_, _) => Rows(e.tree, indent + step)
    case Spread(_, _, more) => more
    case _ => []
  }

  // ---- documents ------------------------------------------------------

  /** A row as it is written: behind blank lines, and with blanks and a comment at its end. */
  datatype Dressed = Dressed(above: seq<string>, row: Row, note: string)

  /** Nothing but spaces and a comment, or the carriage return of another system's line break. */
  predicate IsBlankLine(s: string) {
    '\n' !in s && (SkipSpaces(s) == "" || SkipSpaces(s) == "\r" || SkipSpaces(s)[0] == '#')
  }

  /** White space up to `n`, and nothing or a comment behind it. */
  predicate IsNoteAt(s: string, n: nat) {
    && n <= |s| && '\n' !in s
    && (forall i | 0 <= i < n :: IsWhite(s[i]))
    && (n == |s| || (s[n] == '#' && n > 0 && (s[n - 1] == ' ' || s[n - 1] == '\t')))
  }

  ghost predicate IsNote(s: string) {
    exists n: nat :: IsNoteAt(s, n)
  }

  ghost predicate AreBlankLines(lines: seq<string>) {
    forall i | 0 <= i < |lines| :: IsBlankLine(lines[i])
  }

  ghost predicate AreDressed(rows: seq<Dressed>) {
    forall i | 0 <= i < |rows| :: AreBlankLines(rows[i].above) && IsNote(rows[i].note)
  }

  function Undressed(rows: seq<Dressed>): (r: seq<Row>)
    ensures |r| == |rows|
  {
    if rows == [] then [] else [rows[0].row] + Undressed(rows[1..])
  }

  function Unlines(lines: seq<string>): string {
    if lines == [] then "" else lines[0] + "\n" + Unlines(lines[1..])
  }

  /** The source lines of the rows. */
  function SourceLines(rows: seq<Dressed>): seq<string> {
    if rows == [] then []
    else rows[0].above + ([Spaces(rows[0].row.indent) + (rows[0].row.text + rows[0].note)] + SourceLines(rows[1..]))
  }

  /** The rows of a document, between its markers if it has any. */
  function DocumentRows(t: Tree, indent: nat, start: bool, end: bool): seq<Row> {
    (if start then [Row(0, "---")] else []) + (Rows(t, indent) + EndRows(end))
  }

  function EndRows(end: bool): seq<Row> {
    if end then [Row(0, "...")] else []
  }
}
