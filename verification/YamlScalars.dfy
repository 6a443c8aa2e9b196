/**
 What the line-level helpers of the YAML-subset parser make of a text, in terms
 of its characters, and scalars in the three styles read back to their text.
 */
module YamlScalars {
  import opened Wrappers
  import opened Text
  import opened YamlScan

  // ---- comments and brackets ------------------------------------------

  predicate QuoteFree(s: string) {
    '\'' !in s && '"' !in s
  }

  /** A `#` at the start of the text or behind a blank. */
  predicate OpensComment(s: string, i: nat)
    requires i < |s|
  {
    s[i] == '#' && (i == 0 || s[i - 1] == ' ' || s[i - 1] == '\t')
  }

  predicate NoComment(s: string) {
    forall i | 0 <= i < |s| :: !OpensComment(s, i)
  }

  lemma {:induction false} KeptFrom(s: string, i: nat, atBreak: bool)
    requires QuoteFree(s) && i <= |s| && atBreak == (i == 0 || s[i - 1] == ' ' || s[i - 1] == '\t')
    ensures var n := i + Kept(s[i..], atBreak, OUTSIDE);
      && n <= |s| && (forall k | i <= k < n :: !OpensComment(s, k)) && (n < |s| ==> OpensComment(s, n))
    decreases |s| - i
  {
    if i < |s| {
      var rest := s[i..];
      assert rest[0] == s[i] && rest[1..] == s[i + 1..];
      KeptFrom(s, i + 1, IsBlank(s[i]));
    }
  }

  /** Without quotes, a text is kept up to its first comment. */
  lemma QuoteFreeKept(s: string)
    requires QuoteFree(s)
    ensures var n := Kept(s, true, OUTSIDE); forall i | 0 <= i < |s| && i <= n :: OpensComment(s, i) <==> i == n
  {
    assert s[0..] == s;
    KeptFrom(s, 0, true);
  }

  /** Without a `#` all of a text is kept, quotes or not. */
  lemma {:induction false} NoHashKept(s: string, atBreak: bool, q: Quotes)
    requires '#' !in s
    ensures Kept(s, atBreak, q) == |s|
    decreases |s|
  {
    if s == "" {
    } else if s[0] == '\\' && q.double {
      if |s| > 1 {
        NoHashKept(s[2..], IsBlank(s[1]), q);
      }
    } else {
      assert s[0] in s;
      NoHashKept(s[1..], IsBlank(s[0]), q.After(s[0]));
    }
  }

  lemma {:induction false} InsideKept(s: string, atBreak: bool)
    requires '\'' !in s
    ensures Kept(s, atBreak, Quotes(true, false)) == |s|
    decreases |s|
  {
    if s == "" {
    } else {
      assert s[0] in s;
      InsideKept(s[1..], IsBlank(s[0]));
    }
  }

  /** An apostrophe in plain text hides every comment behind it. */
  lemma {:induction false} ApostropheHidesComments(s: string, rest: string)
    requires QuoteFree(s) && NoComment(s) && '\'' !in rest
    ensures Kept(s + ("'" + rest), true, OUTSIDE) == |s| + 1 + |rest|
  {
    var all, tail := s + ("'" + rest), "'" + rest;
    assert tail[1..] == rest;
    InsideKept(rest, false);
    assert Kept(tail, false, OUTSIDE) == Kept(tail, true, OUTSIDE) == 1 + |rest|;
    if s != "" {
      assert forall i | 0 <= i < |s| && s[i] == '#' :: !OpensComment(s, i);
      KeptUpTo(s, true, tail);
    } else {
      assert all == tail;
    }
  }

  function Count(s: string, c: char): int {
    multiset(s)[c]
  }

  /** How many brackets of `s` are open at its end, or less than none. */
  function Balance(s: string): int {
    Count(s, '[') + Count(s, '{') - Count(s, ']') - Count(s, '}')
  }

  lemma BalanceStep(s: string, c: char)
    ensures Balance(s + [c]) == Balance(s) + if c == '[' || c == '{' then 1 else if c == ']' || c == '}' then -1 else 0
  {
    assert multiset(s + [c]) == multiset(s) + multiset{c};
  }

  lemma {:induction false} DepthFrom(s: string, i: nat, no: nat)
    requires QuoteFree(s) && i <= |s| && forall k | 0 <= k <= i :: Balance(s[..k]) >= 0
    ensures Depth(s[i..], Balance(s[..i]), OUTSIDE, no)
      == if forall k | i <= k <= |s| :: Balance(s[..k]) >= 0 then Ok(Balance(s)) else Err(Error(no, UnbalancedBrackets))
    decreases |s| - i
  {
    hide Balance;
    if i == |s| {
      assert s[i..] == "" && s[..i] == s;
    } else {
      var rest := s[i..];
      assert rest[0] == s[i] && rest[1..] == s[i + 1..];
      assert s[..i + 1] == s[..i] + [s[i]];
      BalanceStep(s[..i], s[i]);
      if Balance(s[..i + 1]) >= 0 {
        DepthFrom(s, i + 1, no);
      }
    }
  }

  /** Without quotes, the depth is the balance of the brackets, and an error if that ever drops below zero. */
  lemma QuoteFreeDepth(s: string, no: nat)
    requires QuoteFree(s)
    ensures FlowDepth(s, no)
      == if forall k | 0 <= k <= |s| :: Balance(s[..k]) >= 0 then Ok(Balance(s)) else Err(Error(no, UnbalancedBrackets))
  {
    assert s[0..] == s && Balance(s[..0]) == 0;
    DepthFrom(s, 0, no);
  }

  /** The comment scanner keeps all of `s` and is outside quotes behind it, at the start of a line and behind a blank. */
  ghost predicate Crossed(s: string) {
    forall tail :: Kept(s + tail, true, OUTSIDE) == |s| + Kept(tail, false, OUTSIDE)
  }

  /** Without quotes and comments a text is crossed; a comment could start behind it if it ends in a blank. */
  lemma {:induction false} KeptUpTo(s: string, atBreak: bool, tail: string)
    requires QuoteFree(s) && s != ""
    requires s[0] == '#' ==> !atBreak
    requires forall i | 0 < i < |s| && s[i] == '#' :: !IsBlank(s[i - 1])
    ensures Kept(s + tail, atBreak, OUTSIDE) == |s| + Kept(tail, IsBlank(s[|s| - 1]), OUTSIDE)
    decreases |s|
  {
    var all := s + tail;
    assert all[0] == s[0] && s[0] in s && all[1..] == s[1..] + tail;
    if |s| == 1 {
      assert s[1..] + tail == tail;
    } else {
      assert forall i | 0 <= i < |s| - 1 :: s[1..][i] == s[i + 1];
      KeptUpTo(s[1..], IsBlank(s[0]), tail);
    }
  }

  lemma {:induction false} KeptBehind(s: string, atBreak: bool, tail: string)
    requires QuoteFree(s) && s != "" && !IsBlank(s[|s| - 1])
    requires s[0] == '#' ==> !atBreak
    requires forall i | 0 < i < |s| && s[i] == '#' :: !IsBlank(s[i - 1])
    ensures Kept(s + tail, atBreak, OUTSIDE) == |s| + Kept(tail, false, OUTSIDE)
  {
    KeptUpTo(s, atBreak, tail);
  }

  /** Without quotes, that is a text without a comment. */
  lemma QuoteFreeCrossed(s: string)
    requires QuoteFree(s) && s != "" && s[|s| - 1] != ' ' && s[|s| - 1] != '\t'
    ensures Crossed(s) <==> NoComment(s)
  {
    if NoComment(s) {
      forall tail
        ensures Kept(s + tail, true, OUTSIDE) == |s| + Kept(tail, false, OUTSIDE)
      {
        assert forall i | 0 <= i < |s| && s[i] == '#' :: !OpensComment(s, i);
        KeptBehind(s, true, tail);
      }
    }
    assert Crossed(s) ==> Kept(s, true, OUTSIDE) == |s| by {
      assert s + "" == s && Kept("", false, OUTSIDE) == 0;
      assert Crossed(s) ==> Kept(s + "", true, OUTSIDE) == |s|;
    }
    QuoteFreeKept(s);
  }

  // ---- styles ---------------------------------------------------------

  datatype Style = Bare | Single | Double

  /** A string and how it is written. */
  datatype Scalar = Scalar(text: string, style: Style)

  function EscapeChar(c: char): string {
    match c
    case '\n' => "\\n"
    case '\t' => "\\t"
    case '\r' => "\\r"
    case '\0' => "\\0"
    case '\\' => "\\\\"
    case '"' => "\\\""
    case _ => [c]
  }

  function Escape(s: string): string {
    if s == "" then "" else EscapeChar(s[0]) + Escape(s[1..])
  }

  function DoubleChar(c: char): string {
    if c == '\'' then "''" else [c]
  }

  /** Every apostrophe twice. */
  function Doubled(s: string): string {
    if s == "" then "" else DoubleChar(s[0]) + Doubled(s[1..])
  }

  function Quoted(s: string): string {
    "\"" + Escape(s) + "\""
  }

  function SingleQuoted(s: string): string {
    "'" + Doubled(s) + "'"
  }

  function ScalarText(s: Scalar): string {
    match s.style
    case Bare => s.text
    case Single => SingleQuoted(s.text)
    case Double => Quoted(s.text)
  }

  // ---- quoted scalars -------------------------------------------------

  lemma EscapeCharPasses(c: char, out: string, tail: string, no: nat)
    ensures TakeDouble(EscapeChar(c) + tail, out, no) == TakeDouble(tail, out + [c], no)
  {
    var e, text := EscapeChar(c), EscapeChar(c) + tail;
    if |e| == 1 {
      assert text[0] == c && text[1..] == tail;
    } else {
      assert text[0] == '\\' && Unescape(text[1]) == Some(c) && text[2..] == tail;
    }
  }

  lemma {:induction false} EscapePasses(s: string, out: string, tail: string, no: nat)
    ensures TakeDouble(Escape(s) + tail, out, no) == TakeDouble(tail, out + s, no)
    decreases |s|
  {
    hide TakeDouble, EscapeChar;
    if s == "" {
      assert Escape(s) + tail == tail && out + s == out;
    } else {
      var rest := Escape(s[1..]) + tail;
      EscapeCharPasses(s[0], out, rest, no);
      EscapePasses(s[1..], out + [s[0]], tail, no);
      assert Escape(s) + tail == EscapeChar(s[0]) + rest;
      assert out + [s[0]] + s[1..] == out + s;
    }
  }

  lemma DoubleCharPasses(c: char, out: string, tail: string, no: nat)
    ensures TakeSingle(DoubleChar(c) + tail, out, no) == TakeSingle(tail, out + [c], no)
  {
    var text := DoubleChar(c) + tail;
    if c == '\'' {
      assert text[0] == '\'' && text[1] == '\'' && text[2..] == tail;
    } else {
      assert text[0] == c && text[1..] == tail;
    }
  }

  lemma {:induction false} DoubledPasses(s: string, out: string, tail: string, no: nat)
    ensures TakeSingle(Doubled(s) + tail, out, no) == TakeSingle(tail, out + s, no)
    decreases |s|
  {
    hide TakeSingle, DoubleChar;
    if s == "" {
      assert Doubled(s) + tail == tail && out + s == out;
    } else {
      var rest := Doubled(s[1..]) + tail;
      DoubleCharPasses(s[0], out, rest, no);
      DoubledPasses(s[1..], out + [s[0]], tail, no);
      assert Doubled(s) + tail == DoubleChar(s[0]) + rest;
      assert out + [s[0]] + s[1..] == out + s;
    }
  }

  lemma QuotedReads(s: string, tail: string, no: nat)
    ensures StartsQuoted(Quoted(s) + tail)
    ensures TakeQuoted(Quoted(s) + tail, no) == Ok((s, tail))
  {
    var end := "\"" + tail;
    EscapePasses(s, "", end, no);
    assert (Quoted(s) + tail)[1..] == Escape(s) + end;
    assert "" + s == s && end[1..] == tail;
  }

  lemma SingleQuotedReads(s: string, tail: string, no: nat)
    requires tail == "" || tail[0] != '\''
    ensures StartsQuoted(SingleQuoted(s) + tail)
    ensures TakeQuoted(SingleQuoted(s) + tail, no) == Ok((s, tail))
  {
    var end := "'" + tail;
    DoubledPasses(s, "", end, no);
    assert (SingleQuoted(s) + tail)[1..] == Doubled(s) + end;
    assert "" + s == s && end[1..] == tail;
  }

  /** A scalar in quotes reads back to its text, whatever follows it that does not double the quote. */
  lemma ScalarReads(s: Scalar, tail: string, no: nat)
    requires !s.style.Bare? && (tail == "" || tail[0] != '\'')
    ensures StartsQuoted(ScalarText(s) + tail)
    ensures TakeQuoted(ScalarText(s) + tail, no) == Ok((s.text, tail))
  {
    if s.style.Single? {
      SingleQuotedReads(s.text, tail, no);
    } else {
      QuotedReads(s.text, tail, no);
    }
  }

  /** As a whole token it is its text, whatever blanks follow it, and refused if anything else does. */
  lemma {:induction false} QuotedTokenExactly(s: Scalar, tail: string, no: nat)
    requires !s.style.Bare? && (tail == "" || tail[0] != '\'')
    ensures ScalarToken(ScalarText(s) + tail, no)
      == if Trim(tail) == "" then Ok(String(s.text)) else Err(Error(no, ContentAfterQuoted))
  {
    ScalarReads(s, tail, no);
    hide Trim, TakeQuoted, ScalarText;
  }

  /** Without its closing quote it is refused. */
  lemma UnterminatedFails(s: string, no: nat)
    ensures TakeQuoted("\"" + Escape(s), no) == Err(Error(no, UnterminatedQuote))
    ensures TakeQuoted("'" + Doubled(s), no) == Err(Error(no, UnterminatedQuote))
  {
    EscapePasses(s, "", "", no);
    DoubledPasses(s, "", "", no);
    assert Escape(s) + "" == Escape(s) && Doubled(s) + "" == Doubled(s);
    assert ("\"" + Escape(s))[1..] == Escape(s) && ("'" + Doubled(s))[1..] == Doubled(s);
  }

  /** So is a backslash in front of another character than the six. */
  lemma UnknownEscapeFails(s: string, c: char, tail: string, no: nat)
    requires c !in {'n', 't', 'r', '0', '\\', '"'}
    ensures TakeQuoted("\"" + (Escape(s) + (['\\', c] + tail)), no) == Err(Error(no, UnsupportedEscape))
  {
    var end := ['\\', c] + tail;
    EscapePasses(s, "", end, no);
    assert ("\"" + (Escape(s) + end))[1..] == Escape(s) + end;
  }

  // ---- plain scalars --------------------------------------------------

  /** The words of the core schema that are no strings. */
  predicate IsCoreWord(s: string) {
    s in {"", "~", "null", "Null", "NULL", "true", "True", "TRUE", "false", "False", "FALSE"}
  }

  /** They are null and the booleans. */
  lemma {:induction false} CoreWordReads(s: string)
    requires IsCoreWord(s)
    ensures PlainScalar(s)
      == match s
         case "true" => Bool(true) case "True" => Bool(true) case "TRUE" => Bool(true)
         case "false" => Bool(false) case "False" => Bool(false) case "FALSE" => Bool(false)
         case _ => Null
  {
  }

  predicate IsNumberChar(c: char) {
    IsDigit(c) || c == '+' || c == '-' || c == '.' || c == 'e' || c == 'E'
  }

  /** A text that cannot be taken for anything but a string. */
  predicate IsStringText(s: string) {
    && !IsCoreWord(s)
    && (!(IsDigit(s[0]) || s[0] == '-' || s[0] == '+' || s[0] == '.') || exists i | 0 <= i < |s| :: !IsNumberChar(s[i]))
  }

  lemma {:induction false} DropDigitsOther(s: string, i: nat)
    requires i < |s| && !IsDigit(s[i])
    ensures var r := DropDigits(s); |s| - |r| <= i && r == s[|s| - |r|..]
  {
    if IsDigit(s[0]) {
      DropDigitsOther(s[1..], i - 1);
    }
  }

  lemma OtherIsNoNumber(s: string, i: nat)
    requires i < |s| && !IsNumberChar(s[i])
    ensures ReadInt(s) == None && !IsFloat(s)
  {
    var signed := s[0] == '-' || s[0] == '+';
    var unsigned := if signed then s[1..] else s;
    var k := if signed then i - 1 else i;
    assert unsigned[k] == s[i];
    DropDigitsOther(unsigned, k);
    var whole := DropDigits(unsigned);
    var j := k - (|unsigned| - |whole|);
    assert whole[j] == s[i];
    if whole[0] == '.' {
      assert whole[1..][j - 1] == s[i];
      DropDigitsOther(whole[1..], j - 1);
      var fraction := DropDigits(whole[1..]);
      OtherIsNoExponent(fraction, j - 1 - (|whole| - 1 - |fraction|));
    } else {
      OtherIsNoExponent(whole, j);
    }
  }

  lemma OtherIsNoExponent(s: string, i: nat)
    requires i < |s| && !IsNumberChar(s[i])
    ensures !IsExponent(s)
  {
    var signed := s[1..];
    if i > 0 {
      assert signed[i - 1] == s[i];
      if signed[0] == '-' || signed[0] == '+' {
        assert signed[1..][i - 2] == s[i];
      }
    }
  }

  lemma StringTextReads(s: string)
    requires IsStringText(s)
    ensures PlainScalar(s) == String(s)
  {
    if i :| 0 <= i < |s| && !IsNumberChar(s[i]) {
      OtherIsNoNumber(s, i);
    }
  }

  function Zeros(n: nat): (s: string)
    ensures |s| == n && AllDigits(s)
  {
    seq(n, _ => '0')
  }

  lemma {:induction false} ZerosInFront(n: nat, digits: string)
    requires AllDigits(digits)
    ensures NatOf(Zeros(n) + digits) == NatOf(digits)
    decreases n + |digits|
  {
    var all := Zeros(n) + digits;
    if digits == "" {
      if n > 0 {
        assert all == Zeros(n) && all[..n - 1] == Zeros(n - 1) + "";
        ZerosInFront(n - 1, "");
      }
    } else {
      var k := |digits| - 1;
      assert all[|all| - 1] == digits[k] && all[..|all| - 1] == Zeros(n) + digits[..k];
      ZerosInFront(n, digits[..k]);
    }
  }

  function Signed(sign: string, n: int): int {
    if sign == "-" then -n else n
  }

  lemma SignedReads(sign: string, digits: string)
    requires sign in {"", "+", "-"} && digits != "" && AllDigits(digits)
    ensures ReadInt(sign + digits) == Some(Signed(sign, NatOf(digits)))
    ensures var c := (sign + digits)[0]; IsDigit(c) || c == '-' || c == '+'
  {
    var text := sign + digits;
    hide NatOf;
    assert sign == "" ==> text == digits;
    assert sign != "" ==> text[0] == sign[0] && text[1..] == digits;
  }

  /** Digits with an optional sign and any zeros in front are the integer, if it fits 64 bits. */
  lemma IntegerReads(sign: string, zeros: nat, n: nat)
    requires sign in {"", "+", "-"}
    ensures var text := sign + (Zeros(zeros) + NatText(n));
      PlainScalar(text)
      == if -9223372036854775808 <= Signed(sign, n) <= 9223372036854775807 then Number(Signed(sign, n)) else Float(text)
  {
    var digits := Zeros(zeros) + NatText(n);
    NatTextReads(n);
    ZerosInFront(zeros, NatText(n));
    hide NatText, NatOf, ReadInt, IsFloat, Zeros;
    SignedReads(sign, digits);
    NumberIsNoWord(sign + digits);
  }

  lemma NumberIsNoWord(s: string)
    requires s != "" && (IsDigit(s[0]) || s[0] == '-' || s[0] == '+' || s[0] == '.')
    ensures !IsCoreWord(s)
  {
    assert "~"[0] == '~' && "null"[0] == 'n' && "Null"[0] == 'N' && "NULL"[0] == 'N';
    assert "true"[0] == 't' && "True"[0] == 'T' && "TRUE"[0] == 'T';
    assert "false"[0] == 'f' && "False"[0] == 'F' && "FALSE"[0] == 'F';
  }

  /** The parts of a decimal literal. */
  datatype Decimal = Decimal(
    sign: string, whole: string, point: bool, fraction: string, exponent: Option<(char, string, string)>)
  {
    predicate Valid() {
      && sign in {"", "+", "-"} && AllDigits(whole) && AllDigits(fraction) && whole + fraction != ""
      && (!point ==> fraction == "")
      && (exponent.Some? ==>
            var (e, s, digits) := exponent.value;
            (e == 'e' || e == 'E') && s in {"", "+", "-"} && digits != "" && AllDigits(digits))
    }

    function Exponent(): string {
      match exponent
      case None => ""
      case Some((e, s, digits)) => [e] + (s + digits)
    }

    function Tail(): string {
      (if point then "." + fraction else "") + Exponent()
    }

    function Text(): string {
      sign + (whole + Tail())
    }
  }

  lemma {:induction false} DigitsDrop(digits: string, tail: string)
    requires AllDigits(digits) && (tail != "" ==> !IsDigit(tail[0]))
    ensures DropDigits(digits + tail) == tail
    decreases |digits|
  {
    if digits == "" {
      assert digits + tail == tail;
    } else {
      assert (digits + tail)[1..] == digits[1..] + tail;
      DigitsDrop(digits[1..], tail);
    }
  }

  lemma {:induction false} DroppedDigits(s: string)
    ensures var r := DropDigits(s); r == s[|s| - |r|..] && AllDigits(s[..|s| - |r|])
  {
    if s != "" && IsDigit(s[0]) {
      DroppedDigits(s[1..]);
    }
  }

  lemma ExponentReads(d: Decimal)
    requires d.Valid()
    ensures d.Exponent() == "" || IsExponent(d.Exponent())
    ensures d.exponent.Some? ==> d.Exponent() != "" && (d.Exponent()[0] == 'e' || d.Exponent()[0] == 'E')
  {
    if d.exponent.Some? {
      var (e, s, digits) := d.exponent.value;
      assert ([e] + (s + digits))[1..] == s + digits;
      assert s == "" ==> s + digits == digits;
      assert s != "" ==> (s + digits)[0] == s[0] && (s + digits)[1..] == digits;
    }
  }

  /** Sign, digits with an optional point, and optional exponent are a float. */
  lemma DecimalReads(d: Decimal)
    requires d.Valid()
    ensures IsFloat(d.Text())
  {
    hide IsExponent, DropDigits;
    var text, exponent, tail := d.Text(), d.Exponent(), d.Tail();
    var unsigned := d.whole + tail;
    ExponentReads(d);
    assert d.sign == "" ==> text == unsigned;
    assert d.sign != "" ==> text[0] == d.sign[0] && text[1..] == unsigned;
    assert unsigned != "" && unsigned[0] != '-' && unsigned[0] != '+';
    DigitsDrop(d.whole, tail);
    if d.point {
      DigitsDrop(d.fraction, exponent);
      assert tail == "." + (d.fraction + exponent) && tail[1..] == d.fraction + exponent;
    } else {
      assert tail == exponent;
    }
  }

  lemma ExponentParts(s: string) returns (e: char, sign: string, digits: string)
    requires IsExponent(s)
    ensures s == [e] + (sign + digits) && (e == 'e' || e == 'E')
    ensures sign in {"", "+", "-"} && digits != "" && AllDigits(digits)
  {
    e := s[0];
    var signed := s[1..];
    if signed[0] == '-' || signed[0] == '+' {
      sign, digits := [signed[0]], signed[1..];
    } else {
      sign, digits := "", signed;
    }
    assert signed == sign + digits;
  }

  /** What stands behind the whole digits. */
  lemma TailParts(s: string) returns (point: bool, fraction: string, rest: string)
    ensures point <==> s != "" && s[0] == '.'
    ensures rest == if point then DropDigits(s[1..]) else s
    ensures AllDigits(fraction) && (!point ==> fraction == "")
    ensures s == (if point then "." + fraction else "") + rest
    ensures |s| == |fraction| + |rest| + if point then 1 else 0
  {
    point, fraction, rest := s != "" && s[0] == '.', "", s;
    if point {
      rest := DropDigits(s[1..]);
      DroppedDigits(s[1..]);
      fraction := s[1..][..|s| - 1 - |rest|];
      hide DropDigits;
      assert s == "." + (fraction + rest) == "." + fraction + rest;
    }
  }

  lemma SignParts(s: string) returns (sign: string, unsigned: string)
    requires s != ""
    ensures sign in {"", "+", "-"} && s == sign + unsigned
    ensures unsigned == if s[0] == '-' || s[0] == '+' then s[1..] else s
  {
    if s[0] == '-' || s[0] == '+' {
      sign, unsigned := [s[0]], s[1..];
    } else {
      sign, unsigned := "", s;
    }
  }

  /** The parts of a float, cut where its syntax is read. */
  lemma FloatShape(s: string, unsigned: string, point: bool, fraction: string, rest: string)
    requires s != "" && unsigned == if s[0] == '-' || s[0] == '+' then s[1..] else s
    requires var tail := DropDigits(unsigned);
      && (point <==> tail != "" && tail[0] == '.')
      && rest == (if point then DropDigits(tail[1..]) else tail)
      && |tail| == |fraction| + |rest| + (if point then 1 else 0)
    ensures IsFloat(s) <==> |unsigned| - |DropDigits(unsigned)| + |fraction| > 0 && (rest == "" || IsExponent(rest))
  {
    hide DropDigits, IsExponent;
  }

  lemma {:induction false} WholeParts(s: string) returns (whole: string, tail: string)
    ensures tail == DropDigits(s) && AllDigits(whole) && s == whole + tail && |whole| == |s| - |tail|
  {
    DroppedDigits(s);
    hide DropDigits, AllDigits;
    tail := DropDigits(s);
    var k := |s| - |tail|;
    whole := s[..k];
    assert s == s[..k] + s[k..];
  }

  lemma FloatCut(s: string) returns (sign: string, whole: string, point: bool, fraction: string, rest: string)
    requires IsFloat(s)
    ensures sign in {"", "+", "-"} && AllDigits(whole) && AllDigits(fraction) && |whole| + |fraction| > 0
    ensures !point ==> fraction == ""
    ensures rest == "" || IsExponent(rest)
    ensures s == sign + (whole + ((if point then "." + fraction else "") + rest))
  {
    assert s != "";
    hide *;
    var unsigned, tail: string;
    sign, unsigned := SignParts(s);
    whole, tail := WholeParts(unsigned);
    point, fraction, rest := TailParts(tail);
    FloatShape(s, unsigned, point, fraction, rest);
  }

  /** Nothing else is a float. */
  lemma FloatParts(s: string) returns (d: Decimal)
    requires IsFloat(s)
    ensures d.Valid() && d.Text() == s
  {
    var sign, whole, point, fraction, rest := FloatCut(s);
    hide IsFloat, IsExponent;
    var exponent := None;
    if rest != "" {
      var e, s, digits := ExponentParts(rest);
      exponent := Some((e, s, digits));
    }
    d := Decimal(sign, whole, point, fraction, exponent);
    assert d.Exponent() == rest;
  }

  /** A literal with a point or an exponent is a float. */
  lemma FloatReads(d: Decimal)
    requires d.Valid() && (d.point || d.exponent.Some?)
    ensures PlainScalar(d.Text()) == Float(d.Text())
  {
    var text := d.Text();
    DecimalReads(d);
    NumberIsNoWord(text);
    NoDigitIsNoInt(d);
  }

  lemma OtherIsNoInt(s: string, i: nat)
    requires 0 < i < |s| && !IsDigit(s[i])
    ensures ReadInt(s) == None
  {
    assert s[1..][i - 1] == s[i];
  }

  lemma NoDigitIsNoInt(d: Decimal)
    requires d.Valid() && (d.point || d.exponent.Some?)
    ensures ReadInt(d.Text()) == None
  {
    var text, i := d.Text(), |d.sign| + |d.whole|;
    var tail := d.Tail();
    assert tail != "" && tail[0] in {'.', 'e', 'E'};
    assert text[i] == tail[0];
    hide Decimal.Text, Decimal.Tail, Decimal.Valid;
    if i > 0 {
      OtherIsNoInt(text, i);
    }
  }

  // ---- keys -----------------------------------------------------------

  /** A `:` in front of a space or at the end. */
  predicate EndsKey(s: string, i: nat)
    requires i < |s|
  {
    s[i] == ':' && (i + 1 == |s| || s[i + 1] == ' ')
  }

  predicate NoKeyEnd(s: string) {
    forall i | 0 <= i < |s| :: !EndsKey(s, i)
  }

  lemma {:induction false} KeyColonIs(s: string)
    ensures match KeyColon(s)
      case None => NoKeyEnd(s)
      case Some(i) => EndsKey(s, i) && forall k | 0 <= k < i :: !EndsKey(s, k)
  {
    if s == "" {
    } else {
      var rest := s[1..];
      KeyColonIs(rest);
      assert forall k | 1 <= k < |s| :: EndsKey(s, k) <==> EndsKey(rest, k - 1);
    }
  }

  /** What a plain key may start with. */
  predicate StartsPlain(text: string) {
    text == "" || text[0] !in {'[', '{', '#', '"', '\''}
  }

  /** A line that starts plain is split at the first `:` that ends a key, if there is one with a key in front of it. */
  lemma PlainSplits(text: string, no: nat)
    requires StartsPlain(text)
    ensures NoKeyEnd(text) ==> SplitKey(text, no) == Ok(None)
    ensures forall i | 0 <= i < |text| && EndsKey(text, i) && (forall k | 0 <= k < i :: !EndsKey(text, k)) ::
      SplitKey(text, no)
      == Ok(if TrimEnd(text[..i]) == "" then None else Some((TrimEnd(text[..i]), TrimStart(text[i + 1..]))))
  {
    KeyColonIs(text);
    hide KeyColon;
    forall i | 0 <= i < |text| && EndsKey(text, i) && (forall k | 0 <= k < i :: !EndsKey(text, k))
      ensures KeyColon(text) == Some(i)
    {
    }
  }

  /** A plain key and what is behind its colon. */
  lemma PlainKeySplits(key: string, rest: string, no: nat)
    requires key != "" && StartsPlain(key) && !IsWhite(key[|key| - 1])
    requires forall i | 0 <= i < |key| - 1 :: !EndsKey(key, i)
    requires rest == "" || rest[0] == ' '
    ensures SplitKey(key + (":" + rest), no) == Ok(Some((key, TrimStart(rest))))
  {
    var i, text := |key|, key + (":" + rest);
    KeyEnds(key, rest);
    assert text[..i] == key && text[i + 1..] == rest && text[0] == key[0];
    hide TrimStart, EndsKey, SplitKey;
    PlainSplits(text, no);
  }

  lemma KeyEnds(key: string, rest: string)
    requires forall i | 0 <= i < |key| - 1 :: !EndsKey(key, i)
    requires rest == "" || rest[0] == ' '
    ensures var text := key + (":" + rest); EndsKey(text, |key|) && forall k | 0 <= k < |key| :: !EndsKey(text, k)
  {
    var i, text := |key|, key + (":" + rest);
    assert text[i] == ':' && (rest != "" ==> text[i + 1] == rest[0]);
    forall k | 0 <= k < i
      ensures !EndsKey(text, k)
    {
      assert text[k] == key[k] && text[k + 1] == if k + 1 < i then key[k + 1] else ':';
      assert k < i - 1 ==> !EndsKey(key, k);
    }
  }

  /** A key in quotes may have white space in front of its colon. */
  lemma QuotedKeySplits(key: Scalar, gap: string, rest: string, no: nat)
    requires !key.style.Bare? && TrimStart(gap) == ""
    requires rest == "" || rest[0] == ' '
    ensures SplitKey(ScalarText(key) + (gap + (":" + rest)), no) == Ok(Some((key.text, TrimStart(rest))))
  {
    var after, tail := ":" + rest, gap + (":" + rest);
    TrimStartConcat(gap, after);
    assert TrimStart(after) == after && after[1..] == rest;
    assert gap != "" ==> IsWhite(gap[0]);
    ScalarReads(key, tail, no);
    hide TrimStart, ScalarText, TakeQuoted, IsWhite;
  }

  /** A scalar in quotes is a key only in front of a colon with a space or nothing behind it. */
  lemma QuotedIsNoEntry(s: Scalar, tail: string, no: nat)
    requires !s.style.Bare? && (tail == "" || tail[0] != '\'')
    requires var rest := TrimStart(tail); rest == "" || rest[0] != ':' || (|rest| > 1 && rest[1] != ' ')
    ensures SplitKey(ScalarText(s) + tail, no) == Ok(None)
  {
    ScalarReads(s, tail, no);
    hide TrimStart, ScalarText, TakeQuoted;
  }

  /** Nothing that starts like a flow collection or a comment is an entry. */
  lemma CollectionIsNoEntry(text: string, no: nat)
    requires text != "" && text[0] in {'[', '{', '#'}
    ensures SplitKey(text, no) == Ok(None)
  {
  }

  /** A port mapping is no entry. */
  lemma PortsAreNoEntry(no: nat)
    ensures SplitKey("8080:80", no) == Ok(None) && PlainScalar("8080:80") == String("8080:80")
  {
    var s := "8080:80";
    assert s[4] == ':' && s[5] == '8';
    assert NoKeyEnd(s);
    PlainSplits(s, no);
    NumberIsNoWord(s);
    StringTextReads(s);
  }

  // ---- words ----------------------------------------------------------

  lemma WordSplits(word: string, rest: string)
    requires ' ' !in word
    ensures SplitWord(word) == (word, "")
    ensures SplitWord(word + (" " + rest)) == (word, TrimStart(rest))
  {
    var text := word + (" " + rest);
    assert forall k | 0 <= k < |word| :: text[k] == word[k];
    FindIs(text, ' ', |word|);
    assert text[..|word|] == word && text[|word|..] == " " + rest && (" " + rest)[1..] == rest;
  }
}
