/** The bracket scanner and the flow parser, on every text that the parser accepts. */
module YamlFlowScan {
  import opened Wrappers
  import opened Text
  import opened YamlScan
  import opened YamlFlow

  // ---- tame text ------------------------------------------------------

  /** A plain token that holds nothing the scanner takes for a quote or a bracket. */
  predicate IsTame(token: string) {
    forall c | c in token :: c !in {'\'', '"'} && !IsOpen(c)
  }

  /** Every plain token that `FlowValue` takes is tame. */
  predicate TameValue(s: string, anchors: Anchors, no: nat)
    decreases |s|, 1
  {
    var t := SkipSpaces(s);
    if t == "" then true
    else if t[0] == '[' then TameItems(t[1..], anchors, no)
    else if t[0] == '{' then TameFields(t[1..], anchors, no)
    else if StartsQuoted(t) then true
    else if t[0] == '*' then IsTame(TakeToken(t[1..]).0)
    else IsTame(TakeToken(t).0)
  }

  predicate TameItems(s: string, anchors: Anchors, no: nat)
    decreases |s|, 2
  {
    var t := SkipSpaces(s);
    t == "" || t[0] == ']' || (
      && TameValue(t, anchors, no)
      && match FlowValue(t, anchors, no)
         case Ok((_, after)) =>
           var u := SkipSpaces(after);
           if u != "" && u[0] == ',' then TameItems(u[1..], anchors, no)
           else |u| < |t| ==> TameItems(u, anchors, no)
         case Err(_) => true)
  }

  predicate TameField(s: string, anchors: Anchors, no: nat)
    decreases |s|, 2
  {
    && (StartsQuoted(s) || IsTame(TakeToken(s).0))
    && match FlowKey(s, no)
       case Ok((_, after)) =>
         var t := SkipSpaces(after);
         t != "" ==> TameValue(t[1..], anchors, no)
       case Err(_) => true
  }

  predicate TameFields(s: string, anchors: Anchors, no: nat)
    decreases |s|, 3
  {
    var t := SkipSpaces(s);
    t == "" || t[0] == '}' || (
      && TameField(t, anchors, no)
      && match FlowField(t, anchors, no)
         case Ok((_, after)) =>
           var u := SkipSpaces(after);
           if u != "" && u[0] == ',' then TameFields(u[1..], anchors, no) else TameFields(u, anchors, no)
         case Err(_) => true)
  }

  // ---- what the scanner makes of the parts ----------------------------

  lemma {:induction false} SpacesScan(s: string, depth: nat, no: nat)
    ensures Depth(s, depth, OUTSIDE, no) == Depth(SkipSpaces(s), depth, OUTSIDE, no)
  {
    if s == "" || s[0] != ' ' {
    } else {
      SpacesScan(s[1..], depth, no);
    }
  }

  lemma {:induction false} TokenScans(s: string, depth: nat, no: nat)
    requires IsTame(TakeToken(s).0)
    ensures Depth(s, depth, OUTSIDE, no) == Depth(TakeToken(s).1, depth, OUTSIDE, no)
    decreases |s|
  {
    if StopsToken(s) {
    } else {
      var (token, rest) := TakeToken(s[1..]);
      assert TakeToken(s).0 == [s[0]] + token;
      TokenScans(s[1..], depth, no);
    }
  }

  lemma QuotedScans(s: string, depth: nat, no: nat, line: nat)
    requires StartsQuoted(s) && TakeQuoted(s, no).Ok?
    ensures Depth(s, depth, OUTSIDE, line) == Depth(TakeQuoted(s, no).value.1, depth, OUTSIDE, line)
  {
    QuoteAgreement(s, true, depth, no, line);
  }

  lemma OneScans(s: string, depth: nat, no: nat)
    requires s != ""
    ensures IsOpen(s[0]) ==> Depth(s, depth, OUTSIDE, no) == Depth(s[1..], depth + 1, OUTSIDE, no)
    ensures IsClose(s[0]) ==> Depth(s, depth + 1, OUTSIDE, no) == Depth(s[1..], depth, OUTSIDE, no)
    ensures s[0] in {',', ':', '*'} ==> Depth(s, depth, OUTSIDE, no) == Depth(s[1..], depth, OUTSIDE, no)
  {
  }

  // ---- the scanner follows the parser ---------------------------------

  /**
   What the parser takes leaves the bracket depth as it was: whatever follows,
   the scanner sees it as a scan that starts there.
   */
  lemma {:induction false} ValueScans(s: string, anchors: Anchors, no: nat, depth: nat, line: nat)
    requires FlowValue(s, anchors, no).Ok? && TameValue(s, anchors, no)
    ensures Depth(s, depth, OUTSIDE, line) == Depth(FlowValue(s, anchors, no).value.1, depth, OUTSIDE, line)
    decreases |s|, 1
  {
    hide Depth, SkipSpaces, TakeToken, TakeQuoted, FlowItems, FlowFields, TameItems, TameFields, IsTame, PlainScalar;
    SpacesScan(s, depth, line);
    var t := SkipSpaces(s);
    OneScans(t, depth, line);
    if t[0] == '[' {
      ItemsScan(t[1..], [], anchors, no, depth, line);
    } else if t[0] == '{' {
      FieldsScan(t[1..], map[], anchors, no, depth, line);
    } else if StartsQuoted(t) {
      QuotedScans(t, depth, no, line);
    } else if t[0] == '*' {
      TokenScans(t[1..], depth, line);
    } else {
      TokenScans(t, depth, line);
    }
  }

  lemma {:induction false} ItemsScan(
    s: string, items: seq<Value>, anchors: Anchors, no: nat, depth: nat, line: nat)
    requires FlowItems(s, items, anchors, no).Ok? && TameItems(s, anchors, no)
    ensures Depth(s, depth + 1, OUTSIDE, line)
      == Depth(FlowItems(s, items, anchors, no).value.1, depth, OUTSIDE, line)
    decreases |s|, 2
  {
    hide Depth, SkipSpaces, FlowValue, TameValue;
    SpacesScan(s, depth + 1, line);
    var t := SkipSpaces(s);
    if t[0] == ']' {
      OneScans(t, depth, line);
    } else {
      var (item, after) := FlowValue(t, anchors, no).value;
      ValueScans(t, anchors, no, depth + 1, line);
      SpacesScan(after, depth + 1, line);
      var u := SkipSpaces(after);
      OneScans(u, depth + 1, line);
      ItemsScan(if u[0] == ',' then u[1..] else u, items + [item], anchors, no, depth, line);
    }
  }

  lemma FieldScans(s: string, anchors: Anchors, no: nat, depth: nat, line: nat)
    requires FlowField(s, anchors, no).Ok? && TameField(s, anchors, no)
    ensures Depth(s, depth, OUTSIDE, line) == Depth(FlowField(s, anchors, no).value.1, depth, OUTSIDE, line)
    decreases |s|, 2
  {
    hide Depth, SkipSpaces, FlowValue, TameValue, TakeToken, TakeQuoted, IsTame;
    var (_, after) := FlowKey(s, no).value;
    if StartsQuoted(s) {
      QuotedScans(s, depth, no, line);
    } else {
      TokenScans(s, depth, line);
    }
    SpacesScan(after, depth, line);
    var t := SkipSpaces(after);
    OneScans(t, depth, line);
    ValueScans(t[1..], anchors, no, depth, line);
  }

  lemma {:induction false} FieldsScan(
    s: string, fields: map<string, Value>, anchors: Anchors, no: nat, depth: nat, line: nat)
    requires FlowFields(s, fields, anchors, no).Ok? && TameFields(s, anchors, no)
    ensures Depth(s, depth + 1, OUTSIDE, line)
      == Depth(FlowFields(s, fields, anchors, no).value.1, depth, OUTSIDE, line)
    decreases |s|, 3
  {
    hide Depth, SkipSpaces, FlowField, TameField;
    SpacesScan(s, depth + 1, line);
    var t := SkipSpaces(s);
    if t[0] == '}' {
      OneScans(t, depth, line);
    } else {
      var (field, after) := FlowField(t, anchors, no).value;
      FieldScans(t, anchors, no, depth + 1, line);
      SpacesScan(after, depth + 1, line);
      var u := SkipSpaces(after);
      OneScans(u, depth + 1, line);
      FieldsScan(if u[0] == ',' then u[1..] else u, fields[field.0 := field.1], anchors, no, depth, line);
    }
  }

  /** Text that the parser accepts as a whole is what the scanner calls complete. */
  lemma AcceptedIsBalanced(s: string, anchors: Anchors, no: nat, line: nat)
    requires FlowValue(s, anchors, no).Ok? && SkipSpaces(FlowValue(s, anchors, no).value.1) == ""
    requires TameValue(s, anchors, no)
    ensures FlowDepth(s, line) == Ok(0)
  {
    ValueScans(s, anchors, no, 0, line);
    SpacesScan(FlowValue(s, anchors, no).value.1, 0, line);
  }

  lemma TokenGrows(c: char, s: string)
    requires c !in {',', ':'} && !IsClose(c)
    ensures TakeToken([c] + s) == ([c] + TakeToken(s).0, TakeToken(s).1)
  {
    assert ([c] + s)[1..] == s;
  }

  lemma ApostropheToken()
    ensures TakeToken("it's]") == ("it's", "]")
    ensures SkipSpaces("it's]") == "it's]" && SkipSpaces("]") == "]" && SkipSpaces("[it's]") == "[it's]"
    ensures PlainScalar(Trim("it's")) == String("it's")
  {
    assert Trim("it's") == "it's" && "it's"[0] == 'i';
    assert PlainScalar("it's") == String("it's");
    assert TakeToken("]") == ("", "]");
    hide TakeToken, Trim, PlainScalar;
    TokenGrows('s', "]");
    TokenGrows('\'', "s]");
    TokenGrows('t', "'s]");
    TokenGrows('i', "t's]");
    assert ['s'] + "]" == "s]" && ['\''] + "s]" == "'s]" && ['t'] + "'s]" == "t's]" && ['i'] + "t's]" == "it's]";
    assert ['s'] + "" == "s" && ['\''] + "s" == "'s" && ['t'] + "'s" == "t's" && ['i'] + "t's" == "it's";
  }

  lemma ApostropheScans(no: nat)
    ensures FlowDepth("[it's]", no) == Ok(1)
  {
  }

  /** An apostrophe in a plain token hides the brackets behind it from the scanner, but not from the parser. */
  lemma ApostropheMisleads(anchors: Anchors, no: nat)
    ensures FlowValue("[it's]", anchors, no) == Ok((Array([String("it's")]), ""))
    ensures FlowDepth("[it's]", no) == Ok(1)
  {
    ApostropheScans(no);
    ApostropheToken();
    hide FlowDepth, TakeToken, SkipSpaces, PlainScalar, Trim, TakeQuoted;
    var s := "[it's]";
    assert s[1..] == "it's]" && "]"[1..] == "";
    assert FlowValue("it's]", anchors, no) == Ok((String("it's"), "]"));
    assert [] + [String("it's")] == [String("it's")];
    assert FlowItems("]", [String("it's")], anchors, no) == Ok(([String("it's")], ""));
    assert FlowItems("it's]", [], anchors, no) == Ok(([String("it's")], ""));
  }
}
