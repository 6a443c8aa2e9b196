/**
 The operations of Rust's `str` the modelled code relies on. A `str` is a
 sequence of characters here; none of the modelled code looks at a byte that
 is not a whole ASCII character.
 */
module Text {
  import opened Wrappers

  /** `char::is_whitespace`: the Unicode White_Space property. */
  predicate IsWhite(c: char) {
    || '\t' <= c <= '\r'
    || c == ' '
    || c == '\U{0085}'
    || c == '\U{00A0}'
    || c == '\U{1680}'
    || '\U{2000}' <= c <= '\U{200A}'
    || c == '\U{2028}'
    || c == '\U{2029}'
    || c == '\U{202F}'
    || c == '\U{205F}'
    || c == '\U{3000}'
  }

  /** The 25 characters of that property. */
  lemma WhiteSpaces(c: char)
    ensures IsWhite(c) <==> c as int in {
      9, 10, 11, 12, 13, 32, 133, 160, 5760, 8192, 8193, 8194, 8195, 8196, 8197, 8198, 8199, 8200, 8201, 8202,
      8232, 8233, 8239, 8287, 12288}
  {
  }

  predicate IsDigit(c: char) {
    '0' <= c <= '9'
  }

  type byte = b: int | 0 <= b < 256

  /** `b.ends_with(a)`: `a` is what is left of `b` after some of its front has been consumed. */
  predicate IsSuffix<T(==)>(a: seq<T>, b: seq<T>) {
    |a| <= |b| && a == b[|b| - |a|..]
  }

  lemma SuffixTransitive<T>(a: seq<T>, b: seq<T>, c: seq<T>)
    requires IsSuffix(a, b) && IsSuffix(b, c)
    ensures IsSuffix(a, c)
  {
    assert b[|b| - |a|..] == c[|c| - |b|..][|b| - |a|..] == c[|c| - |a|..];
  }

  /** `after` is `before`, or shorter: all that progress arguments need of a suffix. */
  ghost predicate Left<T>(after: seq<T>, before: seq<T>) {
    |after| < |before| || after == before
  }

  /** `trim_start`. */
  function TrimStart(s: string): (r: string)
    ensures Left(r, s)
    ensures r != "" ==> !IsWhite(r[0])
    ensures s != "" && !IsWhite(s[0]) ==> r == s
  {
    if s != "" && IsWhite(s[0]) then TrimStart(s[1..]) else s
  }

  lemma {:induction false} TrimStartConcat(a: string, b: string)
    ensures TrimStart(a + b) == if TrimStart(a) == "" then TrimStart(b) else TrimStart(a) + b
    decreases |a|
  {
    if a == "" {
      assert a + b == b;
    } else if IsWhite(a[0]) {
      assert (a + b)[1..] == a[1..] + b;
      TrimStartConcat(a[1..], b);
    }
  }

  /** `trim_end`. */
  function TrimEnd(s: string): (r: string)
    ensures r <= s
    ensures r != "" ==> !IsWhite(r[|r| - 1])
    ensures s != "" && !IsWhite(s[|s| - 1]) ==> r == s
  {
    if s != "" && IsWhite(s[|s| - 1]) then TrimEnd(s[..|s| - 1]) else s
  }

  /** `trim`. */
  function Trim(s: string): string {
    TrimEnd(TrimStart(s))
  }

  function TrimFront(s: string, c: char): string {
    if s != "" && s[0] == c then TrimFront(s[1..], c) else s
  }

  function TrimBack(s: string, c: char): string {
    if s != "" && s[|s| - 1] == c then TrimBack(s[..|s| - 1], c) else s
  }

  /** `trim_matches(c)`. */
  function TrimMatches(s: string, c: char): string {
    TrimBack(TrimFront(s, c), c)
  }

  lemma TrimStays(s: string, c: char)
    requires s != "" && s[0] != c && s[|s| - 1] != c
    ensures TrimMatches(s, c) == s
  {
  }

  lemma BackStays(s: string, c: char)
    requires s != "" && s[|s| - 1] != c
    ensures TrimBack(s, c) == s
  {
  }

  lemma BackGoes(s: string, c: char)
    requires s != "" && s[|s| - 1] != c
    ensures TrimBack(s + [c], c) == s
  {
    assert (s + [c])[..|s|] == s;
    BackStays(s, c);
  }

  lemma EndsGo(s: string, c: char)
    requires s != "" && s[0] != c && s[|s| - 1] != c
    ensures TrimMatches([c] + s + [c], c) == s
  {
    var t := s + [c];
    assert [c] + s + [c] == [c] + t && ([c] + t)[1..] == t && t[0] == s[0];
    assert TrimFront([c] + t, c) == t;
    BackGoes(s, c);
  }

  /** `trim_start_matches(' ')`. */
  function SkipSpaces(s: string): (r: string)
    ensures Left(r, s)
    ensures r != "" ==> r[0] != ' '
    ensures s != "" && s[0] != ' ' ==> r == s
  {
    if s != "" && s[0] == ' ' then SkipSpaces(s[1..]) else s
  }

  lemma {:induction false} SkipSpacesSuffix(s: string)
    ensures IsSuffix(SkipSpaces(s), s)
    ensures forall k :: 0 <= k < |s| - |SkipSpaces(s)| ==> s[k] == ' '
  {
    if s != "" && s[0] == ' ' {
      SkipSpacesSuffix(s[1..]);
    }
  }

  /** `find(c)`. */
  function Find(s: string, c: char): (r: Option<nat>)
    ensures r.Some? ==> r.value < |s| && s[r.value] == c && forall k :: 0 <= k < r.value ==> s[k] != c
    ensures r.None? ==> c !in s
  {
    if s == "" then None
    else if s[0] == c then Some(0)
    else
      match Find(s[1..], c)
      case None => None
      case Some(i) => Some(i + 1)
  }

  lemma FindIs(s: string, c: char, i: nat)
    requires i < |s| && s[i] == c
    requires forall k :: 0 <= k < i ==> s[k] != c
    ensures Find(s, c) == Some(i)
  {
    assert c in s;
  }

  /** `split_once(c)`. */
  function SplitOnce(s: string, c: char): Option<(string, string)> {
    match Find(s, c)
    case None => None
    case Some(i) => Some((s[..i], s[i + 1..]))
  }

  /** The bytes of the character in UTF-8. */
  function CharBytes(c: char): (n: nat)
    ensures 1 <= n <= 4
  {
    var code := c as int;
    if code < 0x80 then 1 else if code < 0x800 then 2 else if code < 0x1_0000 then 3 else 4
  }

  /** `len()` */
  function ByteLength(s: string): nat {
    if s == "" then 0 else CharBytes(s[0]) + ByteLength(s[1..])
  }

  // ---- lines ----------------------------------------------------------

  function StripCr(s: string): string {
    if s != "" && s[|s| - 1] == '\r' then s[..|s| - 1] else s
  }

  /**
   `lines()`: a line ends at `\n` or `\r\n`, and no empty line follows the
   last terminator.
   */
  function Lines(s: string): (r: seq<string>)
    ensures forall k :: 0 <= k < |r| ==> '\n' !in r[k]
  {
    if s == "" then []
    else
      match Find(s, '\n')
      case None => [s]
      case Some(i) => [StripCr(s[..i])] + Lines(s[i + 1..])
  }

  lemma LinesStep(line: string, rest: string)
    requires '\n' !in line
    ensures Lines(line + "\n" + rest) == [StripCr(line)] + Lines(rest)
  {
    var s := line + "\n" + rest;
    assert s[..|line|] == line && s[|line| + 1..] == rest;
    assert forall k :: 0 <= k < |line| ==> s[k] == line[k];
    FindIs(s, '\n', |line|);
  }

  /** `join(separator)`. */
  function Join<T>(parts: seq<seq<T>>, separator: seq<T>): seq<T> {
    if |parts| == 0 then []
    else if |parts| == 1 then parts[0]
    else parts[0] + separator + Join(parts[1..], separator)
  }

  // ---- decimal numbers ------------------------------------------------

  function DigitOf(d: nat): (c: char)
    requires d < 10
    ensures IsDigit(c) && c as int == '0' as int + d
  {
    ('0' as int + d) as char
  }

  function DigitValue(c: char): (d: nat)
    requires IsDigit(c)
    ensures d < 10 && c as int == '0' as int + d
  {
    (c as int - '0' as int) as nat
  }

  predicate AllDigits(s: string) {
    forall k :: 0 <= k < |s| ==> IsDigit(s[k])
  }

  function NatText(n: nat): (s: string)
    ensures s != "" && AllDigits(s)
  {
    if n < 10 then [DigitOf(n)] else NatText(n / 10) + [DigitOf(n % 10)]
  }

  function NatOf(s: string): nat
    requires AllDigits(s)
  {
    if s == "" then 0 else NatOf(s[..|s| - 1]) * 10 + DigitValue(s[|s| - 1])
  }

  lemma {:induction false} NatTextReads(n: nat)
    ensures NatOf(NatText(n)) == n
  {
    if n >= 10 {
      NatTextReads(n / 10);
      var s := NatText(n);
      assert s[..|s| - 1] == NatText(n / 10);
    } else {
      assert NatText(n)[..0] == "";
    }
  }

  /** `to_string` on an integer. */
  function IntText(n: int): (s: string)
    ensures s != ""
  {
    if n < 0 then "-" + NatText(-n) else NatText(n)
  }

  /** Decimal text with an optional sign, or nothing when the text is not of that form. */
  function ReadInt(s: string): Option<int> {
    var negative := s != "" && s[0] == '-';
    var digits := if s != "" && (s[0] == '-' || s[0] == '+') then s[1..] else s;
    if digits == "" || !AllDigits(digits) then None
    else
      var magnitude: int := NatOf(digits);
      Some(if negative then -magnitude else magnitude)
  }

  lemma IntTextReads(n: int)
    ensures ReadInt(IntText(n)) == Some(n)
  {
    var digits := NatText(if n < 0 then -n else n);
    NatTextReads(if n < 0 then -n else n);
    hide NatText, NatOf;
    if n < 0 {
      assert ("-" + digits)[1..] == digits;
    } else {
      assert IsDigit(digits[0]);
    }
  }
}
