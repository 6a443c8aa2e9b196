/**
 Flow collections of the YAML-subset parser: what each `FlowParser` method
 reads off the front of the remaining characters, and the parser itself.
 */
module YamlFlow {
  import opened Wrappers
  import opened Text
  import opened YamlScan

  type Step<T> = Result<(T, string), Error>

  predicate StopsToken(s: string) {
    || s == ""
    || s[0] == ',' || IsClose(s[0])
    || (s[0] == ':' && (|s| == 1 || s[1] == ' ' || s[1] == ',' || IsClose(s[1])))
  }

  /** The plain token at the front of `s` and what follows it. */
  function TakeToken(s: string): (r: (string, string))
    ensures Left(r.1, s)
  {
    if StopsToken(s) then ("", s)
    else
      var (token, rest) := TakeToken(s[1..]);
      ([s[0]] + token, rest)
  }

  function Resolve(name: string, anchors: Anchors, no: nat): Result<Value, Error> {
    if name in anchors then Ok(anchors[name]) else Err(Error(no, UnknownAnchor))
  }

  function FlowValue(s: string, anchors: Anchors, no: nat): (r: Step<Value>)
    ensures r.Ok? ==> Left(r.value.1, s)
    decreases |s|, 1
  {
    var t := SkipSpaces(s);
    if t == "" then Err(Error(no, EndOfFlow))
    else if t[0] == '[' then
      var (items, rest) :- FlowItems(t[1..], [], anchors, no);
      Ok((Array(items), rest))
    else if t[0] == '{' then
      var (fields, rest) :- FlowFields(t[1..], map[], anchors, no);
      Ok((Object(fields), rest))
    else if StartsQuoted(t) then
      var (text, rest) :- TakeQuoted(t, no);
      Ok((String(text), rest))
    else if t[0] == '*' then
      var (name, rest) := TakeToken(t[1..]);
      var value :- Resolve(Trim(name), anchors, no);
      Ok((value, rest))
    else
      var (token, rest) := TakeToken(t);
      Ok((PlainScalar(Trim(token)), rest))
  }

  /** The rest of a flow sequence whose first items have been read. */
  function FlowItems(s: string, items: seq<Value>, anchors: Anchors, no: nat): (r: Step<seq<Value>>)
    ensures r.Ok? ==> Left(r.value.1, s)
    decreases |s|, 2
  {
    var t := SkipSpaces(s);
    if t == "" then Err(Error(no, UnterminatedFlowSequence))
    else if t[0] == ']' then Ok((items, t[1..]))
    else
      var (item, after) :- FlowValue(t, anchors, no);
      var u := SkipSpaces(after);
      if u != "" && u[0] == ',' then FlowItems(u[1..], items + [item], anchors, no)
      else if u != "" && u[0] == ']' then FlowItems(u, items + [item], anchors, no)
      else Err(Error(no, ExpectedCommaOrBracket))
  }

  /** A flow mapping key; a plain one is trimmed. */
  function FlowKey(s: string, no: nat): (r: Step<string>)
    ensures r.Ok? ==> Left(r.value.1, s)
  {
    if StartsQuoted(s) then TakeQuoted(s, no)
    else
      var (token, rest) := TakeToken(s);
      Ok((Trim(token), rest))
  }

  /** One `key: value` of a flow mapping. */
  function FlowField(s: string, anchors: Anchors, no: nat): (r: Step<(string, Value)>)
    ensures r.Ok? ==> |r.value.1| < |s|
    decreases |s|, 2
  {
    var (key, afterKey) :- FlowKey(s, no);
    var t := SkipSpaces(afterKey);
    if t == "" || t[0] != ':' then Err(Error(no, ExpectedColon))
    else
      var (value, rest) :- FlowValue(t[1..], anchors, no);
      Ok(((key, value), rest))
  }

  /** The rest of a flow mapping whose first fields have been read. */
  function FlowFields(s: string, fields: map<string, Value>, anchors: Anchors, no: nat)
    : (r: Step<map<string, Value>>)
    ensures r.Ok? ==> Left(r.value.1, s)
    decreases |s|, 3
  {
    var t := SkipSpaces(s);
    if t == "" then Err(Error(no, UnterminatedFlowMapping))
    else if t[0] == '}' then Ok((fields, t[1..]))
    else
      var (field, after) :- FlowField(t, anchors, no);
      var u := SkipSpaces(after);
      if u != "" && u[0] == ',' then FlowFields(u[1..], fields[field.0 := field.1], anchors, no)
      else if u != "" && u[0] == '}' then FlowFields(u, fields[field.0 := field.1], anchors, no)
      else Err(Error(no, ExpectedCommaOrBrace))
  }

  /** A cursor over the characters of one flow collection. */
  class FlowParser {
    const chars: string
    const line: nat
    const anchors: Anchors
    var pos: nat

    ghost predicate Valid()
      reads this
    {
      pos <= |chars|
    }

    /** The characters still to be read. */
    ghost function Rest(): string
      reads this
      requires Valid()
    {
      chars[pos..]
    }

    constructor (chars: string, line: nat, anchors: Anchors)
      ensures Valid() && Rest() == chars
      ensures this.chars == chars && this.line == line && this.anchors == anchors
    {
      this.chars := chars;
      this.line := line;
      this.anchors := anchors;
      pos := 0;
    }

    method Skip()
      requires Valid()
      modifies this`pos
      ensures Valid() && Rest() == SkipSpaces(old(Rest()))
    {
      while pos < |chars| && chars[pos] == ' '
        invariant Valid() && SkipSpaces(Rest()) == SkipSpaces(old(Rest()))
      {
        pos := pos + 1;
      }
    }

    method Token() returns (token: string)
      requires Valid()
      modifies this`pos
      ensures Valid() && token == TakeToken(old(Rest())).0 && Rest() == TakeToken(old(Rest())).1
    {
      var start := pos;
      while pos < |chars|
        invariant start <= pos && Valid()
        invariant TakeToken(old(Rest())).0 == chars[start..pos] + TakeToken(Rest()).0
        invariant TakeToken(old(Rest())).1 == TakeToken(Rest()).1
      {
        var c := chars[pos];
        ghost var s := Rest();
        assert s[0] == c && s[1..] == chars[pos + 1..] && (|s| > 1 ==> s[1] == chars[pos + 1]);
        if c == ',' || IsClose(c) {
          break;
        }
        if c == ':' && (pos + 1 == |chars| || chars[pos + 1] == ' ' || chars[pos + 1] == ',' || IsClose(chars[pos + 1])) {
          break;
        }
        pos := pos + 1;
      }
      token := chars[start..pos];
    }

    /** A quoted scalar; the cursor moves to the text that `ReadQuoted` leaves. */
    method Quoted() returns (r: Result<string, Error>)
      requires Valid() && Rest() != ""
      modifies this`pos
      ensures Valid()
      ensures match TakeQuoted(old(Rest()), line)
        case Ok((text, rest)) => r == Ok(text) && Rest() == rest
        case Err(e) => r == Err(e)
    {
      var quoted := ReadQuoted(chars[pos..], line);
      if quoted.Err? {
        return Err(quoted.error);
      }
      QuotedSuffix(chars[pos..], line);
      pos := |chars| - |quoted.value.1|;
      r := Ok(quoted.value.0);
    }

    method ParseValue() returns (r: Result<Value, Error>)
      requires Valid()
      modifies this`pos
      ensures Valid()
      ensures match FlowValue(old(Rest()), anchors, line)
        case Ok((value, rest)) => r == Ok(value) && Rest() == rest
        case Err(e) => r == Err(e)
      decreases |Rest()|, 1
    {
      Skip();
      if pos == |chars| {
        return Err(Error(line, EndOfFlow));
      }
      match chars[pos] {
        case '[' => r := ParseSeq();
        case '{' => r := ParseMap();
        case '"' =>
          var text := Quoted();
          r := if text.Ok? then Ok(String(text.value)) else Err(text.error);
        case '\'' =>
          var text := Quoted();
          r := if text.Ok? then Ok(String(text.value)) else Err(text.error);
        case '*' =>
          pos := pos + 1;
          var name := Token();
          r := Resolve(Trim(name), anchors, line);
        case _ =>
          var token := Token();
          r := Ok(PlainScalar(Trim(token)));
      }
    }

    method ParseSeq() returns (r: Result<Value, Error>)
      requires Valid() && Rest() != ""
      modifies this`pos
      ensures Valid()
      ensures match FlowItems(old(Rest())[1..], [], anchors, line)
        case Ok((items, rest)) => r == Ok(Array(items)) && Rest() == rest
        case Err(e) => r == Err(e)
      decreases |Rest()|, 0
    {
      pos := pos + 1;
      ghost var spec := FlowItems(Rest(), [], anchors, line);
      var items: seq<Value> := [];
      while true
        invariant Valid() && |Rest()| < |old(Rest())|
        invariant FlowItems(Rest(), items, anchors, line) == spec
        decreases |Rest()|
      {
        Skip();
        ghost var t := Rest();
        if pos == |chars| {
          return Err(Error(line, UnterminatedFlowSequence));
        }
        if chars[pos] == ']' {
          pos := pos + 1;
          assert Rest() == t[1..];
          return Ok(Array(items));
        }
        var item := ParseValue();
        if item.Err? {
          return item;
        }
        items := items + [item.value];
        Skip();
        ghost var u := Rest();
        if pos == |chars| || (chars[pos] != ',' && chars[pos] != ']') {
          return Err(Error(line, ExpectedCommaOrBracket));
        }
        assert u[0] == chars[pos];
        assert u[0] == ']' ==> |u| < |t|;
        if chars[pos] == ',' {
          pos := pos + 1;
          assert Rest() == u[1..];
        }
      }
    }

    method ParseField() returns (r: Result<(string, Value), Error>)
      requires Valid() && Rest() != ""
      modifies this`pos
      ensures Valid()
      ensures match FlowField(old(Rest()), anchors, line)
        case Ok((field, rest)) => r == Ok(field) && Rest() == rest
        case Err(e) => r == Err(e)
      decreases |Rest()|, 2
    {
      ghost var s := Rest();
      var key: string;
      if chars[pos] == '"' || chars[pos] == '\'' {
        var quoted := Quoted();
        if quoted.Err? {
          return Err(quoted.error);
        }
        key := quoted.value;
      } else {
        var token := Token();
        key := Trim(token);
      }
      assert FlowKey(s, line) == Ok((key, Rest()));
      Skip();
      ghost var t := Rest();
      if pos == |chars| || chars[pos] != ':' {
        return Err(Error(line, ExpectedColon));
      }
      pos := pos + 1;
      assert Rest() == t[1..];
      var value := ParseValue();
      r := if value.Ok? then Ok((key, value.value)) else Err(value.error);
    }

    method ParseMap() returns (r: Result<Value, Error>)
      requires Valid() && Rest() != ""
      modifies this`pos
      ensures Valid()
      ensures match FlowFields(old(Rest())[1..], map[], anchors, line)
        case Ok((fields, rest)) => r == Ok(Object(fields)) && Rest() == rest
        case Err(e) => r == Err(e)
      decreases |Rest()|, 0
    {
      pos := pos + 1;
      ghost var spec := FlowFields(Rest(), map[], anchors, line);
      var fields: map<string, Value> := map[];
      while true
        invariant Valid() && |Rest()| < |old(Rest())|
        invariant FlowFields(Rest(), fields, anchors, line) == spec
        decreases |Rest()|
      {
        Skip();
        ghost var t := Rest();
        if pos == |chars| {
          return Err(Error(line, UnterminatedFlowMapping));
        }
        if chars[pos] == '}' {
          pos := pos + 1;
          assert Rest() == t[1..];
          return Ok(Object(fields));
        }
        var field := ParseField();
        if field.Err? {
          return Err(field.error);
        }
        fields := fields[field.value.0 := field.value.1];
        Skip();
        ghost var u := Rest();
        if pos == |chars| || (chars[pos] != ',' && chars[pos] != '}') {
          return Err(Error(line, ExpectedCommaOrBrace));
        }
        if chars[pos] == ',' {
          pos := pos + 1;
          assert Rest() == u[1..];
        }
      }
    }
  }
}
