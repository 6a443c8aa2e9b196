/** Flow text as the two scanners and the line reader see it. */
module YamlFlowText {
  import opened Wrappers
  import opened Text
  import opened YamlScan
  import opened YamlBlock
  import opened YamlScalars
  import opened YamlPrint
  import opened YamlFlowRoundTrip

  // ---- crossing a text ------------------------------------------------

  /** Scanning `s` from `depth`, every proper prefix ends at depth `floor` or above. */
  ghost predicate Above(s: string, depth: nat, q: Quotes, floor: nat)
    decreases |s|
  {
    s == "" || (
      && depth >= floor
      && (|s| == 1 ||
          if s[0] == '\\' && q.double then Above(s[2..], depth, q, floor)
          else
            && !(IsClose(s[0]) && q.Outside() && depth == 0)
            && Above(s[1..], NextDepth(s[0], depth, q), q.After(s[0]), floor)))
  }

  function NextDepth(c: char, depth: nat, q: Quotes): nat
    requires !(IsClose(c) && q.Outside() && depth == 0)
  {
    if q.Outside() && IsOpen(c) then depth + 1 else if q.Outside() && IsClose(c) then depth - 1 else depth
  }

  lemma {:induction false} AbovePrefixes(s: string, depth: nat, q: Quotes, floor: nat, k: nat, no: nat)
    requires Above(s, depth, q, floor) && k < |s|
    ensures Depth(s[..k], depth, q, no).Ok? && Depth(s[..k], depth, q, no).value >= floor
    decreases |s|
  {
    if k == 0 {
    } else {
      var p := s[..k];
      if s[0] == '\\' && q.double {
        if k > 1 {
          assert p[2..] == s[2..][..k - 2];
          AbovePrefixes(s[2..], depth, q, floor, k - 2, no);
        }
      } else {
        assert p[1..] == s[1..][..k - 1];
        AbovePrefixes(s[1..], NextDepth(s[0], depth, q), q.After(s[0]), floor, k - 1, no);
      }
    }
  }

  /**
   `before` is crossed up to `after`: no comment is met, the depth goes from
   `from` to `to`, and it stays above the floor if it does so in what follows.
   */
  ghost predicate Crosses(before: string, q: Quotes, after: string, atBreak: bool, from: nat, to: nat, floor: nat) {
    && |after| <= |before|
    && Kept(before, atBreak, q) == |before| - |after| + Kept(after, false, OUTSIDE)
    && (forall no :: Depth(before, from, q, no) == Depth(after, to, OUTSIDE, no))
    && (from >= floor && Above(after, to, OUTSIDE, floor) ==> Above(before, from, q, floor))
  }

  lemma CrossesOn(
    before: string, q: Quotes, middle: string, after: string, atBreak: bool, from: nat, mid: nat, to: nat, floor: nat)
    requires Crosses(before, q, middle, atBreak, from, mid, floor)
    requires Crosses(middle, OUTSIDE, after, false, mid, to, floor)
    requires mid >= floor
    ensures Crosses(before, q, after, atBreak, from, to, floor)
  {
    hide Kept, Depth, Above;
  }

  /** A character that opens no quote and no comment. */
  lemma CharCrosses(c: char, tail: string, atBreak: bool, from: nat, to: nat, floor: nat)
    requires c !in {'\'', '"', ' ', '\t'} && (c == '#' ==> !atBreak)
    requires IsOpen(c) ==> to == from + 1
    requires IsClose(c) ==> from == to + 1
    requires !IsOpen(c) && !IsClose(c) ==> to == from
    ensures Crosses([c] + tail, OUTSIDE, tail, atBreak, from, to, floor)
  {
    assert ([c] + tail)[1..] == tail;
  }

  lemma SpaceCrosses(before: string, after: string, atBreak: bool, from: nat, to: nat, floor: nat)
    requires Crosses(before, OUTSIDE, after, true, from, to, floor)
    ensures Crosses(" " + before, OUTSIDE, after, atBreak, from, to, floor)
  {
    assert (" " + before)[1..] == before;
  }

  /** Behind spaces a comment could start. */
  lemma {:induction false} SpacesCross(
    n: nat, before: string, after: string, atBreak: bool, from: nat, to: nat, floor: nat)
    requires Crosses(before, OUTSIDE, after, atBreak || n > 0, from, to, floor)
    ensures Crosses(Spaces(n) + before, OUTSIDE, after, atBreak, from, to, floor)
    decreases n
  {
    hide Crosses;
    if n == 0 {
      assert Spaces(0) + before == before;
    } else {
      SpacesCross(n - 1, before, after, true, from, to, floor);
      SpaceCrosses(Spaces(n - 1) + before, after, atBreak, from, to, floor);
      assert Spaces(n) + before == " " + (Spaces(n - 1) + before);
    }
  }

  // ---- scalars --------------------------------------------------------

  /** Text without quotes, brackets and comments. */
  predicate IsCalm(s: string) {
    && s != "" && !IsWhite(s[|s| - 1])
    && QuoteFree(s) && NoComment(s) && forall c | c in s :: !IsOpen(c) && !IsClose(c)
  }

  lemma {:induction false} CalmDepth(s: string, tail: string, depth: nat, floor: nat, no: nat)
    requires QuoteFree(s) && forall c | c in s :: !IsOpen(c) && !IsClose(c)
    ensures Depth(s + tail, depth, OUTSIDE, no) == Depth(tail, depth, OUTSIDE, no)
    ensures depth >= floor && Above(tail, depth, OUTSIDE, floor) ==> Above(s + tail, depth, OUTSIDE, floor)
    decreases |s|
  {
    if s == "" {
      assert s + tail == tail;
    } else {
      assert s[0] in s && forall c | c in s[1..] :: c in s;
      assert (s + tail)[1..] == s[1..] + tail;
      CalmDepth(s[1..], tail, depth, floor, no);
    }
  }

  lemma CalmCrosses(s: string, tail: string, atBreak: bool, depth: nat, floor: nat)
    requires IsCalm(s)
    ensures Crosses(s + tail, OUTSIDE, tail, atBreak, depth, depth, floor)
  {
    assert forall i | 0 <= i < |s| && s[i] == '#' :: !OpensComment(s, i);
    KeptBehind(s, atBreak, tail);
    forall no: nat
      ensures Depth(s + tail, depth, OUTSIDE, no) == Depth(tail, depth, OUTSIDE, no)
    {
      CalmDepth(s, tail, depth, floor, no);
    }
    CalmDepth(s, tail, depth, floor, 0);
  }

  lemma PlainIsCalm(s: string)
    requires IsFlowPlain(s)
    ensures IsCalm(s)
  {
    forall c | c in s
      ensures !IsOpen(c) && !IsClose(c)
    {
      var i :| 0 <= i < |s| && s[i] == c;
      assert !EndsToken(s, i);
    }
  }

  lemma NameIsCalm(s: string)
    requires IsName(s)
    ensures IsCalm(s) && ':' !in s && ' ' !in s && '\n' !in s
  {
    assert forall i | 0 <= i < |s| :: s[i] in s;
  }

  lemma DoubleCharCrosses(c: char, rest: string, tail: string, atBreak: bool, depth: nat, floor: nat)
    requires forall b :: Crosses(rest, Quotes(true, false), tail, b, depth, depth, floor)
    ensures Crosses(DoubleChar(c) + rest, Quotes(true, false), tail, atBreak, depth, depth, floor)
  {
    var text := DoubleChar(c) + rest;
    if c == '\'' {
      assert text[0] == '\'' && text[1..] == "'" + rest && text[1..][1..] == rest;
      assert Crosses(rest, Quotes(true, false), tail, false, depth, depth, floor);
    } else {
      assert text[0] == c && text[1..] == rest;
      assert Crosses(rest, Quotes(true, false), tail, IsBlank(c), depth, depth, floor);
    }
  }

  lemma {:induction false} DoubledCrosses(s: string, tail: string, atBreak: bool, depth: nat, floor: nat)
    ensures Crosses(Doubled(s) + ("'" + tail), Quotes(true, false), tail, atBreak, depth, depth, floor)
    decreases |s|
  {
    var text, end := Doubled(s) + ("'" + tail), "'" + tail;
    if s == "" {
      assert text == end && text[1..] == tail;
    } else {
      var rest := Doubled(s[1..]) + end;
      assert text == DoubleChar(s[0]) + rest;
      hide Crosses, DoubleChar;
      forall b
        ensures Crosses(rest, Quotes(true, false), tail, b, depth, depth, floor)
      {
        DoubledCrosses(s[1..], tail, b, depth, floor);
      }
      DoubleCharCrosses(s[0], rest, tail, atBreak, depth, floor);
    }
  }

  lemma EscapeCharCrosses(c: char, rest: string, tail: string, atBreak: bool, depth: nat, floor: nat)
    requires forall b :: Crosses(rest, Quotes(false, true), tail, b, depth, depth, floor)
    ensures Crosses(EscapeChar(c) + rest, Quotes(false, true), tail, atBreak, depth, depth, floor)
  {
    var e, text := EscapeChar(c), EscapeChar(c) + rest;
    if |e| == 1 {
      assert text[0] == c && text[1..] == rest;
      assert Crosses(rest, Quotes(false, true), tail, IsBlank(c), depth, depth, floor);
    } else {
      assert text[0] == '\\' && text[1] == e[1] && text[2..] == rest;
      assert Crosses(rest, Quotes(false, true), tail, IsBlank(e[1]), depth, depth, floor);
    }
  }

  lemma {:induction false} EscapeCrosses(s: string, tail: string, atBreak: bool, depth: nat, floor: nat)
    ensures Crosses(Escape(s) + ("\"" + tail), Quotes(false, true), tail, atBreak, depth, depth, floor)
    decreases |s|
  {
    var text, end := Escape(s) + ("\"" + tail), "\"" + tail;
    if s == "" {
      assert text == end && text[1..] == tail;
    } else {
      var rest := Escape(s[1..]) + end;
      assert text == EscapeChar(s[0]) + rest;
      hide Crosses, EscapeChar;
      forall b
        ensures Crosses(rest, Quotes(false, true), tail, b, depth, depth, floor)
      {
        EscapeCrosses(s[1..], tail, b, depth, floor);
      }
      EscapeCharCrosses(s[0], rest, tail, atBreak, depth, floor);
    }
  }

  lemma QuoteCrosses(c: char, inner: string, tail: string, atBreak: bool, depth: nat, floor: nat)
    requires c == '\'' || c == '"'
    requires Crosses(inner, OUTSIDE.After(c), tail, false, depth, depth, floor)
    ensures Crosses([c] + inner, OUTSIDE, tail, atBreak, depth, depth, floor)
  {
    assert ([c] + inner)[1..] == inner;
  }

  /** Both scanners cross a scalar in quotes without seeing a comment or a bracket. */
  lemma ScalarCrosses(s: Scalar, tail: string, atBreak: bool, depth: nat, floor: nat)
    requires !s.style.Bare?
    ensures Crosses(ScalarText(s) + tail, OUTSIDE, tail, atBreak, depth, depth, floor)
  {
    hide Crosses, Escape, Doubled;
    if s.style.Single? {
      var inner := Doubled(s.text) + ("'" + tail);
      DoubledCrosses(s.text, tail, false, depth, floor);
      QuoteCrosses('\'', inner, tail, atBreak, depth, floor);
      assert ScalarText(s) + tail == ['\''] + inner;
    } else {
      var inner := Escape(s.text) + ("\"" + tail);
      EscapeCrosses(s.text, tail, false, depth, floor);
      QuoteCrosses('"', inner, tail, atBreak, depth, floor);
      assert ScalarText(s) + tail == ['"'] + inner;
    }
  }

  // ---- flow text ------------------------------------------------------

  /** Flow text holds no comment, leaves the bracket depth as it was and stays above it. */
  lemma {:induction false} FlowCrosses(j: Json, tail: string, atBreak: bool, depth: nat, floor: nat)
    requires j.Valid() && depth >= floor
    ensures Crosses(FlowText(j, tail), OUTSIDE, tail, atBreak, depth, depth, floor)
    decreases j, 1
  {
    hide Crosses;
    match j
    case JStr(scalar) =>
      if scalar.style.Bare? {
        PlainIsCalm(scalar.text);
        CalmCrosses(scalar.text, tail, atBreak, depth, floor);
      } else {
        ScalarCrosses(scalar, tail, atBreak, depth, floor);
      }
    case JAlias(name) =>
      NameIsCalm(name);
      CalmCrosses(name, tail, false, depth, floor);
      CharCrosses('*', name + tail, atBreak, depth, depth, floor);
      CrossesOn("*" + (name + tail), OUTSIDE, name + tail, tail, atBreak, depth, depth, depth, floor);
    case JArr(items, layout) =>
      var inner := ItemsText(items, layout, tail);
      ItemsCross(items, layout, tail, depth + 1, floor);
      CharCrosses('[', inner, atBreak, depth, depth + 1, floor);
      CrossesOn("[" + inner, OUTSIDE, inner, tail, atBreak, depth, depth + 1, depth, floor);
    case JObj(fields, layout) =>
      var inner := FieldsText(fields, layout, tail);
      FieldsCross(fields, layout, tail, depth + 1, floor);
      CharCrosses('{', inner, atBreak, depth, depth + 1, floor);
      CrossesOn("{" + inner, OUTSIDE, inner, tail, atBreak, depth, depth + 1, depth, floor);
    case _ =>
      WordReads(j, map[]);
      PlainIsCalm(WordText(j));
      CalmCrosses(WordText(j), tail, atBreak, depth, floor);
  }

  /** The bracket that closes the collection may drop below the floor if it is the last character. */
  lemma {:induction false} ItemsCross(items: seq<Json>, layout: Layout, tail: string, depth: nat, floor: nat)
    requires forall i | 0 <= i < |items| :: items[i].Valid()
    requires depth > 0 && depth >= floor
    ensures Crosses(ItemsText(items, layout, tail), OUTSIDE, tail, false, depth, depth - 1, floor)
    decreases items, 0
  {
    var b := layout.inside > 0;
    if items == [] {
      CharCrosses(']', tail, b, depth, depth - 1, floor);
      SpacesCross(layout.inside, "]" + tail, tail, false, depth, depth - 1, floor);
    } else {
      hide Crosses, ItemsText, FlowText;
      var rest := items[1..];
      var u := MoreItemsText(rest, layout, tail);
      ItemsCross(rest, layout, tail, depth, floor);
      MoreCross(layout, ItemsText(rest, layout, tail), tail, u, depth, floor);
      FlowCrosses(items[0], u, b, depth, floor);
      CrossesOn(FlowText(items[0], u), OUTSIDE, u, tail, b, depth, depth, depth - 1, floor);
      SpacesCross(layout.inside, FlowText(items[0], u), tail, false, depth, depth - 1, floor);
      ItemsAre(items, layout, tail);
    }
  }

  lemma ItemsAre(items: seq<Json>, layout: Layout, tail: string)
    requires items != []
    ensures ItemsText(items, layout, tail)
      == Spaces(layout.inside) + FlowText(items[0], MoreItemsText(items[1..], layout, tail))
  {
  }

  /** What goes on directly or behind a comma. */
  lemma MoreCross(layout: Layout, rest: string, tail: string, u: string, depth: nat, floor: nat)
    requires depth > 0 && depth >= floor && Crosses(rest, OUTSIDE, tail, false, depth, depth - 1, floor)
    requires u == rest || u == Spaces(layout.before) + ("," + rest)
    ensures Crosses(u, OUTSIDE, tail, false, depth, depth - 1, floor)
  {
    hide Crosses;
    if u != rest {
      var b := layout.before > 0;
      CharCrosses(',', rest, b, depth, depth, floor);
      CrossesOn("," + rest, OUTSIDE, rest, tail, b, depth, depth, depth - 1, floor);
      SpacesCross(layout.before, "," + rest, tail, false, depth, depth - 1, floor);
    }
  }

  lemma ColonCrosses(layout: Layout, value: string, tail: string, depth: nat, floor: nat)
    requires depth >= floor && Crosses(value, OUTSIDE, tail, layout.behind > 0, depth, depth, floor)
    ensures Crosses(ColonText(layout, value), OUTSIDE, tail, false, depth, depth, floor)
  {
    hide Crosses, Spaces;
    var b, rest := layout.before > 0, Spaces(layout.behind) + value;
    SpacesCross(layout.behind, value, tail, false, depth, depth, floor);
    CharCrosses(':', rest, b, depth, depth, floor);
    CrossesOn(":" + rest, OUTSIDE, rest, tail, b, depth, depth, depth, floor);
    SpacesCross(layout.before, ":" + rest, tail, false, depth, depth, floor);
  }

  lemma FieldCrosses(f: Field, layout: Layout, tail: string, atBreak: bool, depth: nat, floor: nat)
    requires IsFlowScalar(f.key) && f.json.Valid() && depth >= floor
    ensures Crosses(FieldText(f, layout, tail), OUTSIDE, tail, atBreak, depth, depth, floor)
    decreases f, 0
  {
    var value := FlowText(f.json, tail);
    var colon := ColonText(layout, value);
    assert FieldText(f, layout, tail) == ScalarText(f.key) + colon;
    FlowCrosses(f.json, tail, layout.behind > 0, depth, floor);
    hide Crosses, FieldText, FlowText, ColonText;
    ColonCrosses(layout, value, tail, depth, floor);
    if f.key.style.Bare? {
      PlainIsCalm(f.key.text);
      CalmCrosses(f.key.text, colon, atBreak, depth, floor);
    } else {
      ScalarCrosses(f.key, colon, atBreak, depth, floor);
    }
    CrossesOn(ScalarText(f.key) + colon, OUTSIDE, colon, tail, atBreak, depth, depth, depth, floor);
  }

  lemma {:induction false} FieldsCross(fields: seq<Field>, layout: Layout, tail: string, depth: nat, floor: nat)
    requires forall i | 0 <= i < |fields| :: IsFlowScalar(fields[i].key) && fields[i].json.Valid()
    requires depth > 0 && depth >= floor
    ensures Crosses(FieldsText(fields, layout, tail), OUTSIDE, tail, false, depth, depth - 1, floor)
    decreases fields, 0
  {
    var b := layout.inside > 0;
    if fields == [] {
      CharCrosses('}', tail, b, depth, depth - 1, floor);
      SpacesCross(layout.inside, "}" + tail, tail, false, depth, depth - 1, floor);
    } else {
      hide Crosses, FieldsText, FieldText;
      var rest := fields[1..];
      var u := MoreFieldsText(rest, layout, tail);
      FieldsCross(rest, layout, tail, depth, floor);
      MoreCross(layout, FieldsText(rest, layout, tail), tail, u, depth, floor);
      FieldCrosses(fields[0], layout, u, b, depth, floor);
      CrossesOn(FieldText(fields[0], layout, u), OUTSIDE, u, tail, b, depth, depth, depth - 1, floor);
      SpacesCross(layout.inside, FieldText(fields[0], layout, u), tail, false, depth, depth - 1, floor);
      FieldsAre(fields, layout, tail);
    }
  }

  lemma FieldsAre(fields: seq<Field>, layout: Layout, tail: string)
    requires fields != []
    ensures FieldsText(fields, layout, tail)
      == Spaces(layout.inside) + FieldText(fields[0], layout, MoreFieldsText(fields[1..], layout, tail))
  {
  }

  /**
   A collection stays open until its last character: the bracket depth is
   positive after every proper prefix and zero after the whole text.
   */
  lemma OpenUntilEnd(j: Json, k: nat, no: nat)
    requires j.Valid() && j.IsCollection() && 0 < k < |FlowText(j, "")|
    ensures var d := FlowDepth(FlowText(j, "")[..k], no); d.Ok? && d.value > 0
    ensures FlowDepth(FlowText(j, ""), no) == Ok(0)
  {
    var text := FlowText(j, "");
    var inner := text[1..];
    FlowCrosses(j, "", true, 0, 0);
    if j.JArr? {
      ItemsCross(j.items, j.layout, "", 1, 1);
      assert inner == ItemsText(j.items, j.layout, "");
    } else {
      FieldsCross(j.fields, j.layout, "", 1, 1);
      assert inner == FieldsText(j.fields, j.layout, "");
    }
    AbovePrefixes(inner, 1, OUTSIDE, 1, k - 1, no);
    assert text[..k][1..] == inner[..k - 1];
  }

  // ---- the text on its line -------------------------------------------

  /** What follows a text is no part of it. */
  lemma {:induction false} FlowTail(j: Json, a: string, b: string)
    ensures FlowText(j, a + b) == FlowText(j, a) + b
    decreases j, 1
  {
    match j
    case JStr(scalar) => FrontTail(ScalarText(scalar), a, b);
    case JAlias(name) =>
      FrontTail(name, a, b);
      FrontTail("*", name + a, b);
    case JArr(items, layout) =>
      ItemsTail(items, layout, a, b);
      FrontTail("[", ItemsText(items, layout, a), b);
    case JObj(fields, layout) =>
      FieldsTail(fields, layout, a, b);
      FrontTail("{", FieldsText(fields, layout, a), b);
    case _ => FrontTail(WordText(j), a, b);
  }

  /** What is put in front of a text does not see what follows it. */
  lemma FrontTail(front: string, a: string, b: string)
    ensures front + (a + b) == (front + a) + b
  {
  }

  lemma CommaTail(layout: Layout, a: string, b: string)
    ensures Spaces(layout.before) + ("," + (a + b)) == Spaces(layout.before) + ("," + a) + b
  {
    FrontTail(",", a, b);
    FrontTail(Spaces(layout.before), "," + a, b);
  }

  lemma {:induction false} ItemsTail(items: seq<Json>, layout: Layout, a: string, b: string)
    ensures ItemsText(items, layout, a + b) == ItemsText(items, layout, a) + b
    ensures MoreItemsText(items, layout, a + b) == MoreItemsText(items, layout, a) + b
    decreases items, 0
  {
    if items == [] {
      FrontTail("]", a, b);
      FrontTail(Spaces(layout.inside), "]" + a, b);
    } else {
      var rest := items[1..];
      ItemsTail(rest, layout, a, b);
      FlowTail(items[0], MoreItemsText(rest, layout, a), b);
      ItemsAre(items, layout, a + b);
      ItemsAre(items, layout, a);
      hide ItemsText, FlowText, Spaces;
      FrontTail(Spaces(layout.inside), FlowText(items[0], MoreItemsText(rest, layout, a)), b);
    }
    hide ItemsText, Spaces;
    CommaTail(layout, ItemsText(items, layout, a), b);
  }

  lemma {:induction false} FieldTail(f: Field, layout: Layout, a: string, b: string)
    ensures FieldText(f, layout, a + b) == FieldText(f, layout, a) + b
    decreases f, 0
  {
    FlowTail(f.json, a, b);
    hide FlowText, ScalarText, Spaces;
    var value := FlowText(f.json, a);
    FrontTail(Spaces(layout.behind), value, b);
    FrontTail(":", Spaces(layout.behind) + value, b);
    FrontTail(Spaces(layout.before), ":" + (Spaces(layout.behind) + value), b);
    FrontTail(ScalarText(f.key), ColonText(layout, value), b);
  }

  lemma {:induction false} FieldsTail(fields: seq<Field>, layout: Layout, a: string, b: string)
    ensures FieldsText(fields, layout, a + b) == FieldsText(fields, layout, a) + b
    ensures MoreFieldsText(fields, layout, a + b) == MoreFieldsText(fields, layout, a) + b
    decreases fields, 0
  {
    if fields == [] {
      FrontTail("}", a, b);
      FrontTail(Spaces(layout.inside), "}" + a, b);
    } else {
      var rest := fields[1..];
      FieldsTail(rest, layout, a, b);
      FieldTail(fields[0], layout, MoreFieldsText(rest, layout, a), b);
      FieldsAre(fields, layout, a + b);
      FieldsAre(fields, layout, a);
      hide FieldsText, FieldText, Spaces;
      FrontTail(Spaces(layout.inside), FieldText(fields[0], layout, MoreFieldsText(rest, layout, a)), b);
    }
    hide FieldsText, Spaces;
    CommaTail(layout, FieldsText(fields, layout, a), b);
  }

  /** Text that stays on its line and keeps its last character. */
  ghost predicate FitsLine(text: string) {
    '\n' !in text && (text != "" ==> !IsWhite(text[|text| - 1]))
  }

  lemma {:induction false} EscapeHasNoNewline(s: string)
    ensures '\n' !in Escape(s)
  {
    if s == "" {
    } else {
      EscapeHasNoNewline(s[1..]);
    }
  }

  lemma {:induction false} DoubledHasNoNewline(s: string)
    requires '\n' !in s
    ensures '\n' !in Doubled(s)
  {
    if s == "" {
    } else {
      assert s[0] in s && forall c | c in s[1..] :: c in s;
      DoubledHasNoNewline(s[1..]);
    }
  }

  lemma ScalarFits(s: Scalar, tail: string)
    requires FitsLine(tail)
    requires match s.style case Bare => FitsLine(s.text) case Single => '\n' !in s.text case Double => true
    ensures FitsLine(ScalarText(s) + tail)
  {
    if s.style.Single? {
      DoubledHasNoNewline(s.text);
    } else {
      EscapeHasNoNewline(s.text);
    }
  }

  lemma FlowScalarFits(s: Scalar, tail: string)
    requires FitsLine(tail) && IsFlowScalar(s)
    ensures FitsLine(ScalarText(s) + tail)
  {
    ScalarFits(s, tail);
  }

  lemma CharFits(c: char, tail: string)
    requires FitsLine(tail) && !IsWhite(c)
    ensures FitsLine([c] + tail) && [c] + tail != ""
  {
  }

  lemma SpacesFit(n: nat, text: string)
    requires text != "" && FitsLine(text)
    ensures FitsLine(Spaces(n) + text) && Spaces(n) + text != ""
  {
  }

  lemma {:induction false} FlowFits(j: Json, tail: string)
    requires j.Valid() && FitsLine(tail)
    ensures FitsLine(FlowText(j, tail)) && FlowText(j, tail) != ""
    decreases j, 1
  {
    hide FitsLine, WordText, ScalarText;
    match j
    case JStr(scalar) =>
      FlowScalarFits(scalar, tail);
      FlowTextHead(j, tail);
    case JAlias(name) =>
      NameFits(name, tail);
      CharFits('*', name + tail);
    case JArr(items, layout) =>
      ItemsFit(items, layout, tail);
      CharFits('[', ItemsText(items, layout, tail));
    case JObj(fields, layout) =>
      FieldsFit(fields, layout, tail);
      CharFits('{', FieldsText(fields, layout, tail));
    case _ =>
      WordFits(j, tail);
  }

  lemma NameFits(name: string, tail: string)
    requires IsName(name) && FitsLine(tail)
    ensures FitsLine(name + tail)
  {
    NameIsCalm(name);
  }

  lemma WordFits(j: Json, tail: string)
    requires IsWord(j) && j.Valid() && FitsLine(tail)
    ensures FitsLine(WordText(j) + tail) && WordText(j) + tail != ""
  {
    WordReads(j, map[]);
  }

  lemma {:induction false} ItemsFit(items: seq<Json>, layout: Layout, tail: string)
    requires FitsLine(tail) && forall i | 0 <= i < |items| :: items[i].Valid()
    ensures FitsLine(ItemsText(items, layout, tail)) && ItemsText(items, layout, tail) != ""
    decreases items, 0
  {
    if items == [] {
      CharFits(']', tail);
      SpacesFit(layout.inside, "]" + tail);
    } else {
      var rest := items[1..];
      var u := MoreItemsText(rest, layout, tail);
      hide FitsLine, ItemsText, FlowText;
      ItemsFit(rest, layout, tail);
      MoreFits(layout, ItemsText(rest, layout, tail), u);
      FlowFits(items[0], u);
      SpacesFit(layout.inside, FlowText(items[0], u));
      ItemsAre(items, layout, tail);
    }
  }

  lemma MoreFits(layout: Layout, rest: string, u: string)
    requires FitsLine(rest) && (u == rest || u == Spaces(layout.before) + ("," + rest))
    ensures FitsLine(u)
  {
    hide FitsLine;
    CharFits(',', rest);
    SpacesFit(layout.before, "," + rest);
  }

  lemma FieldFits(f: Field, layout: Layout, tail: string)
    requires IsFlowScalar(f.key) && f.json.Valid() && FitsLine(tail)
    ensures FitsLine(FieldText(f, layout, tail)) && FieldText(f, layout, tail) != ""
    decreases f, 0
  {
    hide FitsLine, FlowText, ScalarText;
    var value := FlowText(f.json, tail);
    FlowFits(f.json, tail);
    SpacesFit(layout.behind, value);
    CharFits(':', Spaces(layout.behind) + value);
    SpacesFit(layout.before, ":" + (Spaces(layout.behind) + value));
    FlowScalarFits(f.key, ColonText(layout, value));
  }

  lemma {:induction false} FieldsFit(fields: seq<Field>, layout: Layout, tail: string)
    requires FitsLine(tail) && forall i | 0 <= i < |fields| :: IsFlowScalar(fields[i].key) && fields[i].json.Valid()
    ensures FitsLine(FieldsText(fields, layout, tail)) && FieldsText(fields, layout, tail) != ""
    decreases fields, 0
  {
    if fields == [] {
      CharFits('}', tail);
      SpacesFit(layout.inside, "}" + tail);
    } else {
      var rest := fields[1..];
      var u := MoreFieldsText(rest, layout, tail);
      hide FitsLine, FieldsText, FieldText;
      FieldsFit(rest, layout, tail);
      MoreFits(layout, FieldsText(rest, layout, tail), u);
      FieldFits(fields[0], layout, u);
      SpacesFit(layout.inside, FieldText(fields[0], layout, u));
      FieldsAre(fields, layout, tail);
    }
  }

  /** Flow text on a line is read as it is. */
  lemma FlowIsLineText(j: Json)
    requires j.Valid()
    ensures IsLineText(FlowText(j, ""))
  {
    var text := FlowText(j, "");
    FlowFits(j, "");
    FlowTextHead(j, "");
    forall tail: string
      ensures Kept(text + tail, true, OUTSIDE) == |text| + Kept(tail, false, OUTSIDE)
    {
      FlowTail(j, "", tail);
      assert "" + tail == tail;
      FlowCrosses(j, tail, true, 0, 0);
    }
  }
}
