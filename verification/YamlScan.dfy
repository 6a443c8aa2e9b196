/**
 Values, errors and the line-level helpers of the YAML-subset parser
 (`src/utils/yaml.rs`): the comment and bracket scanners, quoted and plain
 scalars, and the split of a line at its key.
 */
module YamlScan {
  import opened Wrappers
  import opened Text

  /** `serde_json::Value`; a float literal keeps its text. */
  datatype Value =
    | Null
    | Bool(b: bool)
    | Number(n: int)
    | Float(literal: string)
    | String(s: string)
    | Array(items: seq<Value>)
    | Object(fields: map<string, Value>)

  type Anchors = map<string, Value>

  datatype ErrorKind =
    | TabIndentation
    | Directive
    | MultiDocument
    | UnexpectedContent
    | InconsistentIndentation
    | ExpectedKey
    | BadMergeValue
    | BadMergeSource
    | AnchorNameMissing
    | AnchorValueMissing
    | ContentAfterAlias
    | UnknownAnchor
    | UnclosedFlow
    | ContentAfterFlow
    | UnbalancedBrackets
    | Tag
    | BlockIndentDigit
    | ContentAfterBlockHeader
    | BadBlockIndentation
    | UnsupportedEscape
    | UnterminatedQuote
    | ContentAfterQuoted
    | EndOfFlow
    | UnterminatedFlowSequence
    | ExpectedCommaOrBracket
    | UnterminatedFlowMapping
    | ExpectedColon
    | ExpectedCommaOrBrace

  datatype Error = Error(line: nat, kind: ErrorKind)

  // ---- quote tracking -------------------------------------------------

  /** The two flags with which both scanners follow quotes. */
  datatype Quotes = Quotes(single: bool, double: bool) {
    predicate Outside() {
      !single && !double
    }

    function After(c: char): Quotes {
      if c == '\'' && !double then Quotes(!single, double)
      else if c == '"' && !single then Quotes(single, !double)
      else this
    }
  }

  const OUTSIDE := Quotes(false, false)

  // ---- comments -------------------------------------------------------

  predicate IsBlank(c: char) {
    c == ' ' || c == '\t'
  }

  /**
   How much of `s` precedes the comment, scanning with the given quote flags;
   `atBreak` says that a `#` right here would open a comment.
   */
  function Kept(s: string, atBreak: bool, q: Quotes): (n: nat)
    ensures n <= |s|
    decreases |s|
  {
    if s == "" then 0
    else if s[0] == '\\' && q.double then
      if |s| == 1 then 1 else 2 + Kept(s[2..], IsBlank(s[1]), q)
    else if s[0] == '#' && q.Outside() && atBreak then 0
    else 1 + Kept(s[1..], IsBlank(s[0]), q.After(s[0]))
  }

  /** The text in front of a trailing comment. */
  method StripComment(text: string) returns (kept: string)
    ensures kept == text[..Kept(text, true, OUTSIDE)]
  {
    var inSingle, inDouble := false, false;
    var i := 0;
    ghost var total, atBreak := Kept(text, true, OUTSIDE), true;
    while i < |text|
      invariant 0 <= i
      invariant i < |text| ==> atBreak == (i == 0 || IsBlank(text[i - 1]))
      invariant i <= |text| ==> total == i + Kept(text[i..], atBreak, Quotes(inSingle, inDouble))
      invariant i > |text| ==> total == |text|
    {
      var c := text[i];
      ghost var s := text[i..];
      assert s[0] == c && s[1..] == text[i + 1..];
      assert |s| >= 2 ==> s[1] == text[i + 1] && s[2..] == text[i + 2..];
      if c == '\'' && !inDouble {
        inSingle := !inSingle;
      } else if c == '"' && !inSingle {
        inDouble := !inDouble;
      } else if c == '\\' && inDouble {
        i := i + 1;
      } else if c == '#' && !inSingle && !inDouble && (i == 0 || IsBlank(text[i - 1])) {
        return text[..i];
      }
      i := i + 1;
      atBreak := i <= |text| && IsBlank(text[i - 1]);
    }
    assert i == |text| ==> text[i..] == "";
    kept := text;
  }

  // ---- bracket depth --------------------------------------------------

  predicate IsOpen(c: char) {
    c == '[' || c == '{'
  }

  predicate IsClose(c: char) {
    c == ']' || c == '}'
  }

  /** Net bracket depth outside quotes, starting from `depth`; it may never drop below zero. */
  function Depth(s: string, depth: nat, q: Quotes, no: nat): Result<nat, Error>
    decreases |s|
  {
    if s == "" then Ok(depth)
    else if s[0] == '\\' && q.double then
      if |s| == 1 then Ok(depth) else Depth(s[2..], depth, q, no)
    else if IsClose(s[0]) && q.Outside() && depth == 0 then Err(Error(no, UnbalancedBrackets))
    else
      var change := if q.Outside() && IsOpen(s[0]) then 1 else if q.Outside() && IsClose(s[0]) then -1 else 0;
      Depth(s[1..], depth + change, q.After(s[0]), no)
  }

  function FlowDepth(text: string, no: nat): Result<nat, Error> {
    Depth(text, 0, OUTSIDE, no)
  }

  method ComputeFlowDepth(text: string, no: nat) returns (r: Result<nat, Error>)
    ensures r == FlowDepth(text, no)
  {
    var depth := 0;
    var inSingle, inDouble := false, false;
    var i := 0;
    while i < |text|
      invariant 0 <= i
      invariant depth >= 0
      invariant i <= |text| ==> FlowDepth(text, no) == Depth(text[i..], depth, Quotes(inSingle, inDouble), no)
      invariant i > |text| ==> FlowDepth(text, no) == Ok(depth)
    {
      var c := text[i];
      ghost var s := text[i..];
      assert s[0] == c && s[1..] == text[i + 1..];
      assert |s| >= 2 ==> s[2..] == text[i + 2..];
      if c == '\'' && !inDouble {
        inSingle := !inSingle;
      } else if c == '"' && !inSingle {
        inDouble := !inDouble;
      } else if c == '\\' && inDouble {
        i := i + 1;
      } else if IsOpen(c) && !inSingle && !inDouble {
        depth := depth + 1;
      } else if IsClose(c) && !inSingle && !inDouble {
        depth := depth - 1;
      }
      if depth < 0 {
        return Err(Error(no, UnbalancedBrackets));
      }
      i := i + 1;
    }
    assert i == |text| ==> text[i..] == "";
    r := Ok(depth);
  }

  // ---- quoted scalars -------------------------------------------------

  predicate StartsQuoted(s: string) {
    s != "" && (s[0] == '"' || s[0] == '\'')
  }

  /** What a backslash followed by `c` stands for. */
  function Unescape(c: char): Option<char> {
    match c
    case 'n' => Some('\n')
    case 't' => Some('\t')
    case 'r' => Some('\r')
    case '0' => Some('\0')
    case '\\' => Some('\\')
    case '"' => Some('"')
    case _ => None
  }

  function TakeSingle(s: string, out: string, no: nat): (r: Result<(string, string), Error>)
    ensures r.Ok? ==> |r.value.1| < |s|
    decreases |s|
  {
    if s == "" then Err(Error(no, UnterminatedQuote))
    else if s[0] != '\'' then TakeSingle(s[1..], out + [s[0]], no)
    else if |s| > 1 && s[1] == '\'' then TakeSingle(s[2..], out + ['\''], no)
    else Ok((out, s[1..]))
  }

  function TakeDouble(s: string, out: string, no: nat): (r: Result<(string, string), Error>)
    ensures r.Ok? ==> |r.value.1| < |s|
    decreases |s|
  {
    if s == "" then Err(Error(no, UnterminatedQuote))
    else if s[0] == '"' then Ok((out, s[1..]))
    else if s[0] != '\\' then TakeDouble(s[1..], out + [s[0]], no)
    else if |s| == 1 then Err(Error(no, UnterminatedQuote))
    else
      match Unescape(s[1])
      case None => Err(Error(no, UnsupportedEscape))
      case Some(c) => TakeDouble(s[2..], out + [c], no)
  }

  /** The content of a leading quoted scalar and the text after its closing quote. */
  function TakeQuoted(text: string, no: nat): (r: Result<(string, string), Error>)
    requires text != ""
    ensures r.Ok? ==> |r.value.1| + 1 < |text|
  {
    if text[0] == '\'' then TakeSingle(text[1..], "", no) else TakeDouble(text[1..], "", no)
  }

  lemma {:induction false} SingleSuffix(s: string, out: string, no: nat)
    requires TakeSingle(s, out, no).Ok?
    ensures IsSuffix(TakeSingle(s, out, no).value.1, s)
    decreases |s|
  {
    if s[0] != '\'' {
      SingleSuffix(s[1..], out + [s[0]], no);
    } else if |s| > 1 && s[1] == '\'' {
      SingleSuffix(s[2..], out + ['\''], no);
    }
  }

  lemma {:induction false} DoubleSuffix(s: string, out: string, no: nat)
    requires TakeDouble(s, out, no).Ok?
    ensures IsSuffix(TakeDouble(s, out, no).value.1, s)
    decreases |s|
  {
    if s[0] == '"' {
    } else if s[0] != '\\' {
      DoubleSuffix(s[1..], out + [s[0]], no);
    } else {
      DoubleSuffix(s[2..], out + [Unescape(s[1]).value], no);
    }
  }

  /** What follows the closing quote is the end of the text. */
  lemma QuotedSuffix(text: string, no: nat)
    requires text != "" && TakeQuoted(text, no).Ok?
    ensures IsSuffix(TakeQuoted(text, no).value.1, text)
  {
    if text[0] == '\'' {
      SingleSuffix(text[1..], "", no);
    } else {
      DoubleSuffix(text[1..], "", no);
    }
  }

  method ReadQuoted(text: string, no: nat) returns (r: Result<(string, string), Error>)
    requires text != ""
    ensures r == TakeQuoted(text, no)
  {
    var out := "";
    var i := 1;
    if text[0] == '\'' {
      while i < |text|
        invariant 1 <= i <= |text|
        invariant TakeQuoted(text, no) == TakeSingle(text[i..], out, no)
      {
        assert i + 2 <= |text| ==> text[i..][2..] == text[i + 2..];
        if text[i] == '\'' {
          if i + 1 < |text| && text[i + 1] == '\'' {
            out := out + ['\''];
            i := i + 1;
          } else {
            return Ok((out, text[i + 1..]));
          }
        } else {
          out := out + [text[i]];
        }
        i := i + 1;
      }
    } else {
      while i < |text|
        invariant 1 <= i <= |text|
        invariant TakeQuoted(text, no) == TakeDouble(text[i..], out, no)
      {
        assert i + 2 <= |text| ==> text[i..][2..] == text[i + 2..];
        match text[i] {
          case '"' =>
            return Ok((out, text[i + 1..]));
          case '\\' =>
            if i + 1 == |text| {
              return Err(Error(no, UnterminatedQuote));
            }
            match Unescape(text[i + 1]) {
              case None => return Err(Error(no, UnsupportedEscape));
              case Some(c) => out := out + [c];
            }
            i := i + 1;
          case c =>
            out := out + [c];
        }
        i := i + 1;
      }
    }
    r := Err(Error(no, UnterminatedQuote));
  }

  // ---- the scanners agree with the quote reader -----------------------

  lemma {:induction false} SinglePasses(s: string, out: string, atBreak: bool, depth: nat, no: nat, line: nat)
    requires TakeSingle(s, out, no).Ok?
    ensures var after := TakeSingle(s, out, no).value.1;
      && Kept(s, atBreak, Quotes(true, false)) == |s| - |after| + Kept(after, false, OUTSIDE)
      && Depth(s, depth, Quotes(true, false), line) == Depth(after, depth, OUTSIDE, line)
    decreases |s|
  {
    if s[0] != '\'' {
      SinglePasses(s[1..], out + [s[0]], IsBlank(s[0]), depth, no, line);
    } else if |s| > 1 && s[1] == '\'' {
      assert s[1..][1..] == s[2..];
      SinglePasses(s[2..], out + ['\''], false, depth, no, line);
    }
  }

  lemma {:induction false} DoublePasses(s: string, out: string, atBreak: bool, depth: nat, no: nat, line: nat)
    requires TakeDouble(s, out, no).Ok?
    ensures var after := TakeDouble(s, out, no).value.1;
      && Kept(s, atBreak, Quotes(false, true)) == |s| - |after| + Kept(after, false, OUTSIDE)
      && Depth(s, depth, Quotes(false, true), line) == Depth(after, depth, OUTSIDE, line)
    decreases |s|
  {
    if s[0] == '"' {
    } else if s[0] != '\\' {
      DoublePasses(s[1..], out + [s[0]], IsBlank(s[0]), depth, no, line);
    } else {
      DoublePasses(s[2..], out + [Unescape(s[1]).value], IsBlank(s[1]), depth, no, line);
    }
  }

  /**
   Whenever the quote reader accepts a leading scalar, both scanners leave it
   in the state of a scan that starts, outside quotes, right after it: no
   comment was cut inside and no bracket was counted.
   */
  lemma QuoteAgreement(s: string, atBreak: bool, depth: nat, no: nat, line: nat)
    requires StartsQuoted(s) && TakeQuoted(s, no).Ok?
    ensures var after := TakeQuoted(s, no).value.1;
      && Kept(s, atBreak, OUTSIDE) == |s| - |after| + Kept(after, false, OUTSIDE)
      && Depth(s, depth, OUTSIDE, line) == Depth(after, depth, OUTSIDE, line)
  {
    if s[0] == '\'' {
      SinglePasses(s[1..], "", false, depth, no, line);
    } else {
      DoublePasses(s[1..], "", false, depth, no, line);
    }
  }

  // ---- plain scalars --------------------------------------------------

  const I64_MIN: int := -0x8000_0000_0000_0000
  const I64_MAX: int := 0x7FFF_FFFF_FFFF_FFFF

  function DropDigits(s: string): (r: string)
    ensures |r| <= |s|
    ensures r != "" ==> !IsDigit(r[0])
  {
    if s != "" && IsDigit(s[0]) then DropDigits(s[1..]) else s
  }

  /** Decimal floating-point syntax: sign, digits with an optional point, optional exponent. */
  predicate IsFloat(s: string) {
    var unsigned := if s != "" && (s[0] == '-' || s[0] == '+') then s[1..] else s;
    var afterWhole := DropDigits(unsigned);
    var hasPoint := afterWhole != "" && afterWhole[0] == '.';
    var afterFraction := if hasPoint then DropDigits(afterWhole[1..]) else afterWhole;
    var digits := |unsigned| - |afterFraction| - (if hasPoint then 1 else 0);
    digits > 0 && (afterFraction == "" || IsExponent(afterFraction))
  }

  predicate IsExponent(s: string) {
    && s != "" && (s[0] == 'e' || s[0] == 'E')
    && var signed := s[1..];
       var digits := if signed != "" && (signed[0] == '-' || signed[0] == '+') then signed[1..] else signed;
       digits != "" && AllDigits(digits)
  }

  function PlainScalar(text: string): Value {
    if text in {"", "~", "null", "Null", "NULL"} then Null
    else if text in {"true", "True", "TRUE"} then Bool(true)
    else if text in {"false", "False", "FALSE"} then Bool(false)
    else if IsDigit(text[0]) || text[0] in {'-', '+', '.'} then
      match ReadInt(text)
      case Some(n) =>
        if I64_MIN <= n <= I64_MAX then Number(n) else Float(text)
      case None =>
        if IsFloat(text) then Float(text) else String(text)
    else String(text)
  }

  function ScalarToken(text: string, no: nat): Result<Value, Error> {
    if StartsQuoted(text) then
      var (s, after) :- TakeQuoted(text, no);
      if Trim(after) != "" then Err(Error(no, ContentAfterQuoted)) else Ok(String(s))
    else
      Ok(PlainScalar(text))
  }

  // ---- keys and words -------------------------------------------------

  /** Where the `:` that ends a plain key stands. */
  function KeyColon(s: string): (r: Option<nat>)
    ensures r.Some? ==> r.value < |s| && s[r.value] == ':'
  {
    if s == "" then None
    else if s[0] == ':' && (|s| == 1 || s[1] == ' ') then Some(0)
    else
      match KeyColon(s[1..])
      case None => None
      case Some(i) => Some(i + 1)
  }

  /** `key: rest`, or nothing when the line is not a mapping entry. */
  function SplitKey(text: string, no: nat): (r: Result<Option<(string, string)>, Error>)
    ensures r.Ok? && r.value.Some? ==> (StartsQuoted(text) || ':' in text) && |r.value.value.1| < |text|
  {
    if text != "" && (text[0] == '[' || text[0] == '{' || text[0] == '#') then Ok(None)
    else if StartsQuoted(text) then
      var (key, after) :- TakeQuoted(text, no);
      var rest := TrimStart(after);
      if rest != "" && rest[0] == ':' && (|rest| == 1 || rest[1] == ' ') then
        Ok(Some((key, TrimStart(rest[1..]))))
      else
        Ok(None)
    else
      match KeyColon(text)
      case None => Ok(None)
      case Some(i) =>
        var key := TrimEnd(text[..i]);
        if key == "" then Ok(None) else Ok(Some((key, TrimStart(text[i + 1..]))))
  }

  method ComputeSplitKey(text: string, no: nat) returns (r: Result<Option<(string, string)>, Error>)
    ensures r == SplitKey(text, no)
  {
    if text != "" && (text[0] == '[' || text[0] == '{' || text[0] == '#') {
      return Ok(None);
    }
    if StartsQuoted(text) {
      var quoted := ReadQuoted(text, no);
      if quoted.Err? {
        return Err(quoted.error);
      }
      var rest := TrimStart(quoted.value.1);
      if rest != "" && rest[0] == ':' && (|rest| == 1 || rest[1] == ' ') {
        return Ok(Some((quoted.value.0, TrimStart(rest[1..]))));
      }
      return Ok(None);
    }
    for i := 0 to |text|
      invariant KeyColon(text) ==
        match KeyColon(text[i..]) case None => None case Some(j) => Some(i + j)
    {
      if text[i] == ':' && (i + 1 == |text| || text[i + 1] == ' ') {
        var key := TrimEnd(text[..i]);
        if key == "" {
          return Ok(None);
        }
        return Ok(Some((key, TrimStart(text[i + 1..]))));
      }
    }
    r := Ok(None);
  }

  /** The first word and the trimmed rest. */
  function SplitWord(text: string): (r: (string, string))
    ensures r.1 != "" ==> |r.1| < |text|
  {
    match Find(text, ' ')
    case Some(i) =>
      var rest := TrimStart(text[i..]);
      assert rest != text[i..];
      (text[..i], rest)
    case None => (text, "")
  }
}
