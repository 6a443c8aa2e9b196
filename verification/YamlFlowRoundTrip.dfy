/** Flow text in any layout survives comment stripping and is read back to its value. */
module YamlFlowRoundTrip {
  import opened Wrappers
  import opened Text
  import opened YamlScan
  import opened YamlFlow
  import opened YamlBlock
  import opened YamlScalars
  import opened YamlPrint

  // ---- spaces ---------------------------------------------------------

  lemma {:induction false} SpacesSkip(n: nat, tail: string)
    ensures SkipSpaces(Spaces(n) + tail) == SkipSpaces(tail)
    decreases n
  {
    if n == 0 {
      assert Spaces(0) + tail == tail;
    } else {
      assert (Spaces(n) + tail)[1..] == Spaces(n - 1) + tail;
      SpacesSkip(n - 1, tail);
    }
  }

  // ---- plain tokens ---------------------------------------------------

  /** A token is what stands in front of the first separator. */
  lemma {:induction false} TokenIs(s: string)
    ensures var (token, rest) := TakeToken(s);
      && s == token + rest
      && (forall i | 0 <= i < |token| :: !Separates(s, i))
      && (rest != "" ==> Separates(s, |token|))
  {
    if StopsToken(s) {
    } else {
      var rest := s[1..];
      TokenIs(rest);
      var token := TakeToken(s).0;
      assert forall i | 0 <= i < |rest| :: Separates(s, i + 1) <==> Separates(rest, i);
      assert s == [s[0]] + rest && !Separates(s, 0);
      hide TakeToken, StopsToken, Separates;
      forall i | 0 <= i < |token|
        ensures !Separates(s, i)
      {
        if i > 0 {
          assert !Separates(rest, i - 1);
        }
      }
    }
  }

  lemma {:induction false} TokenSpaces(tail: string)
    requires StopsToken(SkipSpaces(tail))
    ensures TakeToken(tail) == (tail[..|tail| - |SkipSpaces(tail)|], SkipSpaces(tail))
  {
    if tail != "" && tail[0] == ' ' {
      TokenSpaces(tail[1..]);
      var n := |tail| - |SkipSpaces(tail)|;
      assert tail[..n] == [tail[0]] + tail[1..][..n - 1];
    }
  }

  lemma {:induction false} TokenTaken(token: string, tail: string)
    requires forall i | 0 <= i < |token| :: !EndsToken(token, i)
    requires StopsToken(SkipSpaces(tail))
    ensures TakeToken(token + tail) == (token + tail[..|tail| - |SkipSpaces(tail)|], SkipSpaces(tail))
    decreases |token|
  {
    var s := token + tail;
    if token == "" {
      var spaces := tail[..|tail| - |SkipSpaces(tail)|];
      TokenSpaces(tail);
      assert s == tail && token + spaces == spaces;
    } else {
      var rest := token[1..];
      assert s[0] == token[0] && s[1..] == rest + tail;
      assert !EndsToken(token, 0);
      assert |token| > 1 ==> s[1] == token[1];
      assert forall i | 0 <= i < |rest| :: EndsToken(rest, i) <==> EndsToken(token, i + 1);
      TokenTaken(rest, tail);
      assert [token[0]] + (rest + tail[..|tail| - |SkipSpaces(tail)|]) == token + tail[..|tail| - |SkipSpaces(tail)|];
    }
  }

  predicate AreSpaces(s: string) {
    forall i | 0 <= i < |s| :: s[i] == ' '
  }

  lemma {:induction false} TrimEndSpaces(token: string, spaces: string)
    requires token != "" && !IsWhite(token[|token| - 1])
    requires AreSpaces(spaces)
    ensures TrimEnd(token + spaces) == token
    decreases |spaces|
  {
    var all := token + spaces;
    if spaces == "" {
      assert all == token;
    } else {
      var n := |spaces| - 1;
      assert all[..|all| - 1] == token + spaces[..n] && all[|all| - 1] == ' ';
      TrimEndSpaces(token, spaces[..n]);
    }
  }

  lemma TokenTrims(token: string, spaces: string)
    requires token != "" && !IsWhite(token[0]) && !IsWhite(token[|token| - 1])
    requires AreSpaces(spaces)
    ensures Trim(token + spaces) == token
  {
    hide IsWhite;
    assert TrimStart(token + spaces) == token + spaces;
    TrimEndSpaces(token, spaces);
  }

  /** A token ends at its separator; the spaces in front of that are trimmed. */
  lemma TokenReads(token: string, tail: string)
    requires token != "" && !IsWhite(token[0]) && !IsWhite(token[|token| - 1])
    requires forall i | 0 <= i < |token| :: !EndsToken(token, i)
    requires StopsToken(SkipSpaces(tail))
    ensures Trim(TakeToken(token + tail).0) == token && TakeToken(token + tail).1 == SkipSpaces(tail)
  {
    hide *;
    SpacesInFront(tail);
    TokenTaken(token, tail);
    TokenTrims(token, tail[..|tail| - |SkipSpaces(tail)|]);
  }

  lemma SpacesInFront(s: string)
    ensures |SkipSpaces(s)| <= |s|
    ensures AreSpaces(s[..|s| - |SkipSpaces(s)|])
  {
    SkipSpacesSuffix(s);
  }

  lemma NameIsToken(s: string)
    requires IsName(s)
    ensures forall i | 0 <= i < |s| :: !EndsToken(s, i)
    ensures !IsWhite(s[0]) && !IsWhite(s[|s| - 1])
  {
    assert forall i | 0 <= i < |s| :: s[i] in s;
  }

  // ---- null, booleans and integers ------------------------------------

  predicate IsWord(j: Json) {
    j.JNull? || j.JBool? || j.JInt?
  }

  lemma IntTextShape(n: int)
    ensures var text := IntText(n);
      && (IsDigit(text[0]) || (text[0] == '-' && |text| > 1 && IsDigit(text[1])))
      && forall k | 1 <= k < |text| :: IsDigit(text[k])
  {
  }

  lemma IntReads(n: int)
    requires I64_MIN <= n <= I64_MAX
    ensures IsFlowPlain(IntText(n)) && PlainScalar(IntText(n)) == Number(n)
  {
    var text := IntText(n);
    IntTextShape(n);
    IntTextReads(n);
    hide IntText, ReadInt;
    NumberIsNoWord(text);
    assert forall i | 0 <= i < |text| :: IsDigit(text[i]) || text[i] == '-';
  }

  lemma WordReads(j: Json, anchors: Anchors)
    requires IsWord(j) && j.Valid()
    ensures IsFlowPlain(WordText(j)) && PlainScalar(WordText(j)) == JsonValue(j, anchors)
  {
    match j
    case JNull =>
    case JBool(b) =>
    case JInt(n) => IntReads(n);
  }

  // ---- values ---------------------------------------------------------

  /** What may follow a value: the end, a comma or a closing bracket, behind spaces. */
  predicate Ends(tail: string) {
    var t := SkipSpaces(tail);
    t == "" || t[0] == ',' || IsClose(t[0])
  }

  predicate IsPlain(j: Json) {
    IsWord(j) || (j.JStr? && j.scalar.style.Bare?)
  }

  /** The text of a plain scalar of any kind. */
  function PlainText(j: Json): string
    requires IsPlain(j)
  {
    if j.JStr? then j.scalar.text else WordText(j)
  }

  lemma PlainReads(j: Json, anchors: Anchors)
    requires IsPlain(j) && j.Valid()
    ensures IsFlowPlain(PlainText(j)) && PlainScalar(PlainText(j)) == JsonValue(j, anchors)
    ensures forall tail :: FlowText(j, tail) == PlainText(j) + tail
  {
    if j.JStr? {
      StringTextReads(j.scalar.text);
    } else {
      WordReads(j, anchors);
    }
  }

  lemma FlowTextHead(j: Json, tail: string)
    requires j.Valid()
    ensures var text := FlowText(j, tail);
      && text != "" && !IsWhite(text[0])
      && text[0] !in {']', '}', ',', '#'}
      && (j.IsCollection() <==> IsOpen(text[0]))
      && (j.JStr? && !j.scalar.style.Bare? <==> StartsQuoted(text))
      && (j.JAlias? <==> text[0] == '*')
  {
    if IsPlain(j) {
      PlainReads(j, map[]);
      var s := PlainText(j);
      hide *;
      PlainHead(s);
    }
  }

  lemma PlainHead(s: string)
    requires IsFlowPlain(s)
    ensures s != "" && !IsWhite(s[0]) && s[0] !in {']', '}', ',', '#', '[', '{', '"', '\'', '*'}
  {
    assert !EndsToken(s, 0) && !OpensComment(s, 0) && s[0] in s;
  }

  /** `text` is read to `value`, up to spaces in front of `tail`. */
  ghost predicate ReadsTo(text: string, value: Value, tail: string, anchors: Anchors, no: nat) {
    var r := FlowValue(text, anchors, no);
    r.Ok? && r.value.0 == value && SkipSpaces(r.value.1) == SkipSpaces(tail)
  }

  lemma SpacesBehindSkip(s: string)
    ensures SkipSpaces(SkipSpaces(s)) == SkipSpaces(s)
  {
  }

  lemma PlainValueReads(j: Json, tail: string, anchors: Anchors, no: nat)
    requires IsPlain(j) && j.Valid() && Ends(tail)
    ensures ReadsTo(FlowText(j, tail), JsonValue(j, anchors), tail, anchors, no)
  {
    FlowTextHead(j, tail);
    PlainReads(j, anchors);
    hide PlainScalar, PlainText, FlowText, Trim, IsWhite;
    TokenReads(PlainText(j), tail);
    hide TakeToken;
    SpacesBehindSkip(tail);
  }

  lemma AliasReads(name: string, tail: string, anchors: Anchors, no: nat)
    requires IsName(name) && name in anchors && Ends(tail)
    ensures ReadsTo("*" + (name + tail), anchors[name], tail, anchors, no)
  {
    NameIsToken(name);
    TokenReads(name, tail);
    SpacesBehindSkip(tail);
    hide TakeToken, Trim, IsWhite;
    assert ("*" + (name + tail))[1..] == name + tail;
  }

  lemma ScalarValueReads(s: Scalar, tail: string, anchors: Anchors, no: nat)
    requires !s.style.Bare? && Ends(tail)
    ensures ReadsTo(ScalarText(s) + tail, String(s.text), tail, anchors, no)
  {
    ScalarReads(s, tail, no);
    hide TakeQuoted, ScalarText;
    assert SkipSpaces(ScalarText(s) + tail) == ScalarText(s) + tail;
  }

  /** Flow text in any layout is read to its value, and nothing behind it is. */
  lemma {:induction false} FlowReads(j: Json, tail: string, anchors: Anchors, no: nat)
    requires j.Valid() && JsonResolves(j, anchors) && Ends(tail)
    ensures ReadsTo(FlowText(j, tail), JsonValue(j, anchors), tail, anchors, no)
    decreases j, 1
  {
    var s := FlowText(j, tail);
    match j
    case JArr(items, layout) =>
      assert s[1..] == ItemsText(items, layout, tail);
      ItemsRead(items, layout, [], tail, anchors, no);
      assert [] + JsonValues(items, anchors) == JsonValues(items, anchors);
    case JObj(fields, layout) =>
      assert s[1..] == FieldsText(fields, layout, tail);
      FieldsRead(fields, layout, map[], tail, anchors, no);
    case JAlias(name) => AliasReads(name, tail, anchors, no);
    case JStr(scalar) =>
      if scalar.style.Bare? {
        PlainValueReads(j, tail, anchors, no);
      } else {
        ScalarValueReads(scalar, tail, anchors, no);
      }
    case _ => PlainValueReads(j, tail, anchors, no);
  }

  // ---- items ----------------------------------------------------------

  lemma ItemsSkip(s: string, done: seq<Value>, anchors: Anchors, no: nat)
    ensures FlowItems(SkipSpaces(s), done, anchors, no) == FlowItems(s, done, anchors, no)
  {
    SpacesBehindSkip(s);
    hide SkipSpaces, FlowValue;
  }

  /** One more item is read; a comma behind it is passed. */
  lemma ItemStep(s: string, done: seq<Value>, anchors: Anchors, no: nat, item: Value, tail: string)
    requires SkipSpaces(s) == s != "" && s[0] != ']'
    requires ReadsTo(s, item, tail, anchors, no)
    requires var u := SkipSpaces(tail); u != "" && (u[0] == ',' || u[0] == ']')
    ensures var u := SkipSpaces(tail);
      FlowItems(s, done, anchors, no) == FlowItems(if u[0] == ',' then u[1..] else u, done + [item], anchors, no)
  {
    hide FlowValue, SkipSpaces;
  }

  lemma ItemsClose(layout: Layout, done: seq<Value>, tail: string, anchors: Anchors, no: nat)
    ensures FlowItems(ItemsText([], layout, tail), done, anchors, no) == Ok((done, tail))
  {
    SpacesSkip(layout.inside, "]" + tail);
    assert SkipSpaces("]" + tail) == "]" + tail && ("]" + tail)[1..] == tail;
  }

  lemma MoreItemsHead(items: seq<Json>, layout: Layout, tail: string)
    ensures var u := SkipSpaces(MoreItemsText(items, layout, tail));
      && u != ""
      && (items == [] && !layout.trailing ==> u == SkipSpaces(ItemsText([], layout, tail)) && u[0] == ']')
      && (items != [] || layout.trailing ==> u[0] == ',' && u[1..] == ItemsText(items, layout, tail))
    ensures Ends(MoreItemsText(items, layout, tail))
  {
    if items == [] && !layout.trailing {
      SpacesSkip(layout.inside, "]" + tail);
    } else {
      var rest := ItemsText(items, layout, tail);
      hide ItemsText;
      SpacesSkip(layout.before, "," + rest);
      assert SkipSpaces("," + rest) == "," + rest && ("," + rest)[1..] == rest;
    }
  }

  lemma ItemReads(
    items: seq<Json>, layout: Layout, done: seq<Value>, tail: string, anchors: Anchors, no: nat, value: Value)
    requires items != [] && items[0].Valid()
    requires var u := MoreItemsText(items[1..], layout, tail); ReadsTo(FlowText(items[0], u), value, u, anchors, no)
    ensures FlowItems(ItemsText(items, layout, tail), done, anchors, no)
      == FlowItems(ItemsText(items[1..], layout, tail), done + [value], anchors, no)
  {
    var rest := items[1..];
    var u := MoreItemsText(rest, layout, tail);
    var s := FlowText(items[0], u);
    assert ItemsText(items, layout, tail) == Spaces(layout.inside) + s;
    hide *;
    MoreItemsHead(rest, layout, tail);
    FlowTextHead(items[0], u);
    SpacesSkip(layout.inside, s);
    assert SkipSpaces(s) == s by {
      FlowStarts(s);
    }
    ItemsSkip(Spaces(layout.inside) + s, done, anchors, no);
    ItemStep(s, done, anchors, no, value, u);
    ItemsSkip(ItemsText(rest, layout, tail), done + [value], anchors, no);
  }

  lemma FlowStarts(s: string)
    requires s != "" && !IsWhite(s[0])
    ensures SkipSpaces(s) == s
  {
  }

  lemma {:induction false} ItemsRead(
    items: seq<Json>, layout: Layout, done: seq<Value>, tail: string, anchors: Anchors, no: nat)
    requires forall i | 0 <= i < |items| :: items[i].Valid() && JsonResolves(items[i], anchors)
    ensures FlowItems(ItemsText(items, layout, tail), done, anchors, no)
      == Ok((done + JsonValues(items, anchors), tail))
    decreases items, 0
  {
    if items == [] {
      ItemsClose(layout, done, tail, anchors, no);
      assert done + [] == done;
    } else {
      var rest, value := items[1..], JsonValue(items[0], anchors);
      assert done + JsonValues(items, anchors) == done + [value] + JsonValues(rest, anchors);
      hide FlowItems, JsonValue, JsonValues, FlowText, MoreItemsText, ItemsText, JsonResolves, Ends, ReadsTo;
      MoreItemsHead(rest, layout, tail);
      FlowReads(items[0], MoreItemsText(rest, layout, tail), anchors, no);
      ItemReads(items, layout, done, tail, anchors, no, value);
      ItemsRead(rest, layout, done + [value], tail, anchors, no);
    }
  }

  // ---- fields ---------------------------------------------------------

  lemma FieldsSkip(s: string, done: map<string, Value>, anchors: Anchors, no: nat)
    ensures FlowFields(SkipSpaces(s), done, anchors, no) == FlowFields(s, done, anchors, no)
  {
    SpacesBehindSkip(s);
    hide SkipSpaces, FlowField;
  }

  lemma ColonHead(layout: Layout, value: string)
    ensures SkipSpaces(ColonText(layout, value)) == ":" + (Spaces(layout.behind) + value)
    ensures ColonText(layout, value) != "" && ColonText(layout, value)[0] in {' ', ':'}
    ensures layout.behind > 0 ==> StopsToken(SkipSpaces(ColonText(layout, value)))
  {
    var rest := Spaces(layout.behind) + value;
    SpacesSkip(layout.before, ":" + rest);
    assert SkipSpaces(":" + rest) == ":" + rest;
  }

  lemma KeyReads(key: Scalar, layout: Layout, value: string, no: nat)
    requires IsFlowScalar(key) && (key.style.Bare? ==> layout.behind > 0)
    ensures var r := FlowKey(KeyText(key, layout, value), no);
      r.Ok? && r.value.0 == key.text && SkipSpaces(r.value.1) == ":" + (Spaces(layout.behind) + value)
  {
    var colon := ColonText(layout, value);
    ColonHead(layout, value);
    SpacesBehindSkip(colon);
    hide SkipSpaces, TakeQuoted, ColonText;
    if key.style.Bare? {
      PlainHead(key.text);
      hide Trim, TakeToken;
      TokenReads(key.text, colon);
    } else {
      ScalarReads(key, colon, no);
    }
  }

  lemma FieldReads(f: Field, layout: Layout, tail: string, anchors: Anchors, no: nat)
    requires IsFlowScalar(f.key) && (f.key.style.Bare? ==> layout.behind > 0)
    requires f.json.Valid() && JsonResolves(f.json, anchors) && Ends(tail)
    ensures var r := FlowField(FieldText(f, layout, tail), anchors, no);
      r.Ok? && r.value.0 == FieldValue(f, anchors) && SkipSpaces(r.value.1) == SkipSpaces(tail)
    decreases f, 0
  {
    var text := FlowText(f.json, tail);
    KeyReads(f.key, layout, text, no);
    FlowReads(f.json, tail, anchors, no);
    SpacesSkip(layout.behind, text);
    hide FlowText, JsonValue, FlowKey, JsonResolves, KeyText, SkipSpaces, Ends;
    ValueSkips(Spaces(layout.behind) + text, anchors, no);
    ValueSkips(text, anchors, no);
    hide FlowValue;
  }

  lemma ValueSkips(s: string, anchors: Anchors, no: nat)
    ensures FlowValue(SkipSpaces(s), anchors, no) == FlowValue(s, anchors, no)
  {
    SpacesBehindSkip(s);
    hide SkipSpaces, FlowItems, FlowFields, TakeToken, TakeQuoted, PlainScalar;
  }

  /** One more field is read; a comma behind it is passed. */
  lemma FieldStep(
    s: string, done: map<string, Value>, anchors: Anchors, no: nat, field: (string, Value), tail: string)
    requires SkipSpaces(s) == s != "" && s[0] != '}'
    requires var r := FlowField(s, anchors, no);
      r.Ok? && r.value.0 == field && SkipSpaces(r.value.1) == SkipSpaces(tail)
    requires var u := SkipSpaces(tail); u != "" && (u[0] == ',' || u[0] == '}')
    ensures var u := SkipSpaces(tail);
      FlowFields(s, done, anchors, no)
      == FlowFields(if u[0] == ',' then u[1..] else u, done[field.0 := field.1], anchors, no)
  {
    hide FlowField, SkipSpaces;
  }

  lemma FieldsClose(layout: Layout, done: map<string, Value>, tail: string, anchors: Anchors, no: nat)
    ensures FlowFields(FieldsText([], layout, tail), done, anchors, no) == Ok((done, tail))
  {
    SpacesSkip(layout.inside, "}" + tail);
    assert SkipSpaces("}" + tail) == "}" + tail && ("}" + tail)[1..] == tail;
  }

  lemma MoreFieldsHead(fields: seq<Field>, layout: Layout, tail: string)
    ensures var u := SkipSpaces(MoreFieldsText(fields, layout, tail));
      && u != ""
      && (fields == [] && !layout.trailing ==> u == SkipSpaces(FieldsText([], layout, tail)) && u[0] == '}')
      && (fields != [] || layout.trailing ==> u[0] == ',' && u[1..] == FieldsText(fields, layout, tail))
    ensures Ends(MoreFieldsText(fields, layout, tail))
  {
    if fields == [] && !layout.trailing {
      SpacesSkip(layout.inside, "}" + tail);
    } else {
      var rest := FieldsText(fields, layout, tail);
      hide FieldsText;
      SpacesSkip(layout.before, "," + rest);
      assert SkipSpaces("," + rest) == "," + rest && ("," + rest)[1..] == rest;
    }
  }

  lemma FieldTextHead(f: Field, layout: Layout, tail: string)
    requires IsFlowScalar(f.key)
    ensures var s := FieldText(f, layout, tail); s != "" && s[0] != ' ' && s[0] != '}' && SkipSpaces(s) == s
  {
    hide FlowText, ColonText;
    if f.key.style.Bare? {
      PlainHead(f.key.text);
    }
  }

  lemma NextFieldReads(
    fields: seq<Field>, layout: Layout, done: map<string, Value>, tail: string, anchors: Anchors, no: nat,
    field: (string, Value))
    requires fields != [] && IsFlowScalar(fields[0].key)
    requires var u := MoreFieldsText(fields[1..], layout, tail);
      var r := FlowField(FieldText(fields[0], layout, u), anchors, no);
      r.Ok? && r.value.0 == field && SkipSpaces(r.value.1) == SkipSpaces(u)
    ensures FlowFields(FieldsText(fields, layout, tail), done, anchors, no)
      == FlowFields(FieldsText(fields[1..], layout, tail), done[field.0 := field.1], anchors, no)
  {
    var rest := fields[1..];
    var u := MoreFieldsText(rest, layout, tail);
    var s := FieldText(fields[0], layout, u);
    assert FieldsText(fields, layout, tail) == Spaces(layout.inside) + s;
    hide *;
    MoreFieldsHead(rest, layout, tail);
    FieldTextHead(fields[0], layout, u);
    SpacesSkip(layout.inside, s);
    FieldsSkip(Spaces(layout.inside) + s, done, anchors, no);
    FieldStep(s, done, anchors, no, field, u);
    FieldsSkip(FieldsText(rest, layout, tail), done[field.0 := field.1], anchors, no);
  }

  lemma {:induction false} FieldsRead(
    fields: seq<Field>, layout: Layout, done: map<string, Value>, tail: string, anchors: Anchors, no: nat)
    requires JObj(fields, layout).Valid() && JsonResolves(JObj(fields, layout), anchors)
    ensures FlowFields(FieldsText(fields, layout, tail), done, anchors, no)
      == Ok((AddAll(done, FieldValues(fields, anchors)), tail))
    decreases fields, 0
  {
    if fields == [] {
      FieldsClose(layout, done, tail, anchors, no);
    } else {
      var rest, field := fields[1..], FieldValue(fields[0], anchors);
      assert FieldValues(fields, anchors)[1..] == FieldValues(rest, anchors);
      hide FlowFields, FlowField, FieldText, MoreFieldsText, FieldsText, FieldValue, Ends, IsFlowScalar;
      MoreFieldsHead(rest, layout, tail);
      FieldReads(fields[0], layout, MoreFieldsText(rest, layout, tail), anchors, no);
      NextFieldReads(fields, layout, done, tail, anchors, no, field);
      FieldsRead(rest, layout, done[field.0 := field.1], tail, anchors, no);
    }
  }
}
