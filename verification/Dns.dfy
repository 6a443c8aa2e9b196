/** The wire code of the built-in DNS server (`src/dns/server.rs`; RFC 1035, sections 3.1 and 4.1). */
module Dns {
  import opened Wrappers
  import opened Text
  import opened Labels

  const DOT: byte := 46

  const TTL := 60

  // ---- text -----------------------------------------------------------

  predicate IsContinuation(b: byte) {
    0x80 <= b <= 0xBF
  }

  /** `std::str::from_utf8` succeeds: well-formed UTF-8 (RFC 3629, section 4). */
  predicate ValidUtf8(s: seq<byte>) {
    if s == [] then true
    else if s[0] < 0x80 then ValidUtf8(s[1..])
    else if 0xC2 <= s[0] <= 0xDF then
      |s| >= 2 && IsContinuation(s[1]) && ValidUtf8(s[2..])
    else if 0xE0 <= s[0] <= 0xEF then
      && |s| >= 3 && IsContinuation(s[1]) && IsContinuation(s[2])
      && (s[0] == 0xE0 ==> s[1] >= 0xA0) && (s[0] == 0xED ==> s[1] <= 0x9F)
      && ValidUtf8(s[3..])
    else if 0xF0 <= s[0] <= 0xF4 then
      && |s| >= 4 && IsContinuation(s[1]) && IsContinuation(s[2]) && IsContinuation(s[3])
      && (s[0] == 0xF0 ==> s[1] >= 0x90) && (s[0] == 0xF4 ==> s[1] <= 0x8F)
      && ValidUtf8(s[4..])
    else false
  }

  /** A Unicode scalar value. */
  predicate IsScalar(code: nat) {
    code < 0xD800 || 0xE000 <= code < 0x11_0000
  }

  /** Section 3 of RFC 3629. */
  function EncodeScalar(code: nat): (s: seq<byte>)
    requires IsScalar(code)
    ensures s != []
  {
    if code < 0x80 then [code]
    else if code < 0x800 then [0xC0 + code / 0x40, 0x80 + code % 0x40]
    else if code < 0x1_0000 then [0xE0 + code / 0x1000, 0x80 + code / 0x40 % 0x40, 0x80 + code % 0x40]
    else [0xF0 + code / 0x4_0000, 0x80 + code / 0x1000 % 0x40, 0x80 + code / 0x40 % 0x40, 0x80 + code % 0x40]
  }

  function EncodeScalars(codes: seq<nat>): seq<byte>
    requires forall i | 0 <= i < |codes| :: IsScalar(codes[i])
  {
    if codes == [] then [] else EncodeScalar(codes[0]) + EncodeScalars(codes[1..])
  }

  lemma {:induction false} ScalarIsValid(code: nat, rest: seq<byte>)
    requires IsScalar(code)
    ensures ValidUtf8(EncodeScalar(code) + rest) <==> ValidUtf8(rest)
  {
    var e := EncodeScalar(code);
    var s := e + rest;
    assert s[|e|..] == rest;
    assert forall k | 0 <= k < |e| :: s[k] == e[k];
  }

  lemma {:induction false} TwoBytes(a: nat, b: nat) returns (code: nat)
    requires 0xC2 <= a <= 0xDF && 0x80 <= b <= 0xBF
    ensures IsScalar(code) && EncodeScalar(code) == [a, b]
  {
    code := (a - 0xC0) * 0x40 + (b - 0x80);
  }

  lemma {:induction false} ThreeBytes(a: nat, b: nat, c: nat) returns (code: nat)
    requires 0xE0 <= a <= 0xEF && 0x80 <= b <= 0xBF && 0x80 <= c <= 0xBF
    requires (a == 0xE0 ==> b >= 0xA0) && (a == 0xED ==> b <= 0x9F)
    ensures IsScalar(code) && EncodeScalar(code) == [a, b, c]
  {
    var high := (a - 0xE0) * 0x40 + (b - 0x80);
    code := high * 0x40 + (c - 0x80);
    assert code / 0x40 == high && code / 0x1000 == a - 0xE0;
  }

  lemma {:induction false} FourBytes(a: nat, b: nat, c: nat, d: nat) returns (code: nat)
    requires 0xF0 <= a <= 0xF4 && 0x80 <= b <= 0xBF && 0x80 <= c <= 0xBF && 0x80 <= d <= 0xBF
    requires (a == 0xF0 ==> b >= 0x90) && (a == 0xF4 ==> b <= 0x8F)
    ensures IsScalar(code) && EncodeScalar(code) == [a, b, c, d]
  {
    var top := (a - 0xF0) * 0x40 + (b - 0x80);
    var high := top * 0x40 + (c - 0x80);
    code := high * 0x40 + (d - 0x80);
    assert code / 0x40 == high && code / 0x1000 == top && code / 0x4_0000 == a - 0xF0;
  }

  /** The first character of valid text, and what follows it. */
  lemma {:induction false} FirstScalar(s: seq<byte>) returns (code: nat, rest: seq<byte>)
    requires ValidUtf8(s) && s != []
    ensures IsScalar(code) && s == EncodeScalar(code) + rest && ValidUtf8(rest)
  {
    if s[0] < 0x80 {
      code, rest := s[0], s[1..];
      assert EncodeScalar(code) == [s[0]];
    } else if s[0] <= 0xDF {
      code := TwoBytes(s[0], s[1]);
      rest := s[2..];
    } else if s[0] <= 0xEF {
      code := ThreeBytes(s[0], s[1], s[2]);
      rest := s[3..];
    } else {
      code := FourBytes(s[0], s[1], s[2], s[3]);
      rest := s[4..];
    }
    hide EncodeScalar, IsScalar;
  }

  /** Bytes are valid exactly if they encode a sequence of scalar values. */
  lemma {:induction false} Utf8Exactly(s: seq<byte>)
    ensures ValidUtf8(s) <==> exists codes: seq<nat> :: EncodesTo(codes, s)
    decreases |s|
  {
    if s == [] {
      assert EncodesTo([], []);
    } else if ValidUtf8(s) {
      var code, rest := FirstScalar(s);
      Utf8Exactly(rest);
      var codes: seq<nat> :| EncodesTo(codes, rest);
      assert ([code] + codes)[1..] == codes;
      assert EncodesTo([code] + codes, s);
    }
    if codes: seq<nat> :| EncodesTo(codes, s) {
      if codes != [] {
        var rest := EncodeScalars(codes[1..]);
        assert EncodesTo(codes[1..], rest);
        Utf8Exactly(rest);
        ScalarIsValid(codes[0], rest);
      }
    }
  }

  ghost predicate EncodesTo(codes: seq<nat>, s: seq<byte>) {
    (forall i | 0 <= i < |codes| :: IsScalar(codes[i])) && EncodeScalars(codes) == s
  }

  /** `join(".")`. */
  function JoinLabels(labels: seq<seq<byte>>): seq<byte> {
    Join(labels, [DOT])
  }

  function LowerByte(b: byte): byte {
    if 65 <= b <= 90 then b + 32 else b
  }

  /** `to_lowercase` on ASCII text. */
  function Lower(s: seq<byte>): seq<byte> {
    seq(|s|, i requires 0 <= i < |s| => LowerByte(s[i]))
  }

  // ---- numbers --------------------------------------------------------

  function U16At(data: seq<byte>, pos: nat): (n: nat)
    requires pos + 2 <= |data|
    ensures n < 0x1_0000
  {
    var high: nat := data[pos];
    high * 256 + data[pos + 1]
  }

  function U16Bytes(n: nat): (s: seq<byte>)
    requires n < 0x1_0000
    ensures |s| == 2 && U16At(s, 0) == n
  {
    [n / 256, n % 256]
  }

  function U32Bytes(n: nat): (s: seq<byte>)
    requires n < 0x1_0000_0000
    ensures |s| == 4 && U16At(s, 0) * 0x1_0000 + U16At(s, 2) == n
  {
    var s := U16Bytes(n / 0x1_0000) + U16Bytes(n % 0x1_0000);
    assert s[2] == U16Bytes(n % 0x1_0000)[0] && s[3] == U16Bytes(n % 0x1_0000)[1];
    s
  }

  // ---- names ----------------------------------------------------------

  /** The labels from `pos` on, after those already read, and the offset behind the name. */
  function ReadLabels(data: seq<byte>, pos: nat, labels: seq<seq<byte>>): (r: Option<(seq<seq<byte>>, nat)>)
    ensures r.Some? ==> pos < r.value.1
    decreases |data| - pos
  {
    if pos >= |data| then None
    else if data[pos] == 0 then Some((labels, pos + 1))
    else if data[pos] >= 0xC0 then Some((labels, pos + 2))
    else
      var end := pos + 1 + data[pos];
      if end > |data| || !ValidUtf8(data[pos + 1..end]) then None
      else ReadLabels(data, end, labels + [data[pos + 1..end]])
  }

  function ReadName(data: seq<byte>, pos: nat): (r: Option<(seq<byte>, nat)>)
    ensures r.Some? ==> pos < r.value.1
  {
    match ReadLabels(data, pos, [])
    case None => None
    case Some((labels, end)) => Some((JoinLabels(labels), end))
  }

  /** The offset behind the name at `pos`. */
  function SkipName(data: seq<byte>, pos: nat): (r: Option<nat>)
    ensures r.Some? ==> pos < r.value
    decreases |data| - pos
  {
    if pos >= |data| then None
    else if data[pos] == 0 then Some(pos + 1)
    else if data[pos] >= 0xC0 then Some(pos + 2)
    else SkipName(data, pos + data[pos] + 1)
  }

  method ComputeReadName(data: seq<byte>, start: nat) returns (r: Option<(seq<byte>, nat)>)
    ensures r == ReadName(data, start)
  {
    var labels: seq<seq<byte>> := [];
    var pos := start;
    while true
      invariant ReadLabels(data, start, []) == ReadLabels(data, pos, labels)
      decreases |data| - pos
    {
      if pos >= |data| {
        return None;
      }
      var len := data[pos];
      if len == 0 {
        pos := pos + 1;
        break;
      }
      if len >= 0xC0 {
        pos := pos + 2;
        break;
      }
      pos := pos + 1;
      if pos + len > |data| {
        return None;
      }
      var chunk := data[pos..pos + len];
      if !ValidUtf8(chunk) {
        return None;
      }
      labels := labels + [chunk];
      pos := pos + len;
    }
    r := Some((JoinLabels(labels), pos));
  }

  method ComputeSkipName(data: seq<byte>, start: nat) returns (r: Option<nat>)
    ensures r == SkipName(data, start)
  {
    var pos := start;
    while true
      invariant SkipName(data, start) == SkipName(data, pos)
      decreases |data| - pos
    {
      if pos >= |data| {
        return None;
      }
      var len := data[pos];
      if len == 0 {
        return Some(pos + 1);
      }
      if len >= 0xC0 {
        return Some(pos + 2);
      }
      pos := pos + len + 1;
    }
  }

  // ---- questions ------------------------------------------------------

  function QdCount(data: seq<byte>): nat
    requires |data| >= 12
  {
    U16At(data, 4)
  }

  /** The name and type of the first question. */
  function ParseFirstQuestion(data: seq<byte>): Option<(seq<byte>, nat)> {
    if |data| < 12 then None
    else
      var (name, end) :- ReadName(data, 12);
      if end + 2 > |data| then None else Some((name, U16At(data, end)))
  }

  /** The offset behind `count` questions that start at `pos`. */
  function QuestionsEnd(data: seq<byte>, count: nat, pos: nat): (r: Option<nat>)
    ensures r.Some? ==> pos <= r.value && (count > 0 || pos <= |data| ==> r.value <= |data|)
    decreases count
  {
    if count == 0 then Some(pos)
    else
      var end :- SkipName(data, pos);
      if end + 4 > |data| then None else QuestionsEnd(data, count - 1, end + 4)
  }

  function QuestionSectionEnd(data: seq<byte>): Option<nat> {
    if |data| < 12 then None else QuestionsEnd(data, QdCount(data), 12)
  }

  /** Without questions the section ends where it starts; without a header it has no end. */
  lemma NoQuestions(data: seq<byte>)
    ensures |data| < 12 ==> QuestionSectionEnd(data) == None
    ensures |data| >= 12 && QdCount(data) == 0 ==> QuestionSectionEnd(data) == Some(12)
  {
  }

  method ComputeQuestionSectionEnd(data: seq<byte>) returns (r: Option<nat>)
    ensures r == QuestionSectionEnd(data)
  {
    if |data| < 12 {
      return None;
    }
    var count := QdCount(data);
    var pos: nat := 12;
    for i := 0 to count
      invariant QuestionsEnd(data, count, 12) == QuestionsEnd(data, count - i, pos)
    {
      var end := ComputeSkipName(data, pos);
      if end.None? {
        return None;
      }
      pos := end.value + 4;
      if pos > |data| {
        return None;
      }
    }
    r := Some(pos);
  }

  // ---- responses ------------------------------------------------------

  /** The 16 bytes of the one answer. */
  function AnswerBytes(): (s: seq<byte>)
    ensures |s| == 16
  {
    [0xC0, 0x0C] + [0, 1] + [0, 1] + U32Bytes(TTL) + [0, 4] + [127, 0, 0, 1]
  }

  method MakeResponse(query: seq<byte>) returns (r: Option<seq<byte>>)
    ensures r.Some? <==> ParseFirstQuestion(query).Some? && QuestionSectionEnd(query).Some?
    ensures r.Some? ==> IsResponse(query, r.value)
  {
    if |query| < 12 {
      return None;
    }
    var name := ComputeReadName(query, 12);
    if name.None? || name.value.1 + 2 > |query| {
      return None;
    }
    var qtype := U16At(query, name.value.1);
    var qEnd := ComputeQuestionSectionEnd(query);
    if qEnd.None? {
      return None;
    }
    var answerCount := if qtype == 1 then 1 else 0;
    var resp := query[..2];
    resp := resp + [0x81, 0x80];
    resp := resp + U16Bytes(QdCount(query));
    resp := resp + U16Bytes(answerCount);
    resp := resp + [0, 0];
    resp := resp + [0, 0];
    resp := resp + query[12..qEnd.value];
    if qtype == 1 {
      resp := resp + AnswerBytes();
    }
    r := Some(resp);
  }

  /** What a response says: the header, the question section verbatim, and the answer if there is one. */
  ghost predicate IsResponse(query: seq<byte>, resp: seq<byte>)
    requires ParseFirstQuestion(query).Some? && QuestionSectionEnd(query).Some?
  {
    var end, answers := QuestionSectionEnd(query).value, if ParseFirstQuestion(query).value.1 == 1 then 1 else 0;
    && |resp| == end + 16 * answers
    && resp[..2] == query[..2] && resp[2..4] == [0x81, 0x80]
    && U16At(resp, 4) == QdCount(query) && U16At(resp, 6) == answers
    && U16At(resp, 8) == 0 && U16At(resp, 10) == 0
    && resp[12..end] == query[12..end]
    && resp[end..] == if answers == 1 then AnswerBytes() else []
  }

  // ---- the two name walkers -------------------------------------------

  /** The raw labels of the name at `pos` and the offset behind it, as far as they are there. */
  function RawLabels(data: seq<byte>, pos: nat): Option<(seq<seq<byte>>, nat)>
    decreases |data| - pos
  {
    if pos >= |data| then None
    else if data[pos] == 0 then Some(([], pos + 1))
    else if data[pos] >= 0xC0 then Some(([], pos + 2))
    else
      var end := pos + 1 + data[pos];
      if end > |data| then None
      else
        var (rest, after) :- RawLabels(data, end);
        Some(([data[pos + 1..end]] + rest, after))
  }

  ghost predicate AllValid(labels: seq<seq<byte>>) {
    forall i | 0 <= i < |labels| :: ValidUtf8(labels[i])
  }

  lemma {:induction false} ReadLabelsRaw(data: seq<byte>, pos: nat, labels: seq<seq<byte>>)
    ensures var raw := RawLabels(data, pos);
      ReadLabels(data, pos, labels)
        == if raw.Some? && AllValid(raw.value.0) then Some((labels + raw.value.0, raw.value.1)) else None
    decreases |data| - pos
  {
    if pos < |data| && 0 < data[pos] < 0xC0 && pos + 1 + data[pos] <= |data| {
      var end := pos + 1 + data[pos];
      var first := data[pos + 1..end];
      ReadLabelsRaw(data, end, labels + [first]);
      var raw := RawLabels(data, end);
      if raw.Some? {
        assert AllValid([first] + raw.value.0) <==> ValidUtf8(first) && AllValid(raw.value.0) by {
          assert ([first] + raw.value.0)[0] == first;
          assert forall i | 0 <= i < |raw.value.0| :: ([first] + raw.value.0)[i + 1] == raw.value.0[i];
        }
        assert labels + [first] + raw.value.0 == labels + ([first] + raw.value.0);
      }
    } else if pos < |data| && (data[pos] == 0 || data[pos] >= 0xC0) {
      assert labels + [] == labels;
    }
  }

  lemma {:induction false} SkipNameRaw(data: seq<byte>, pos: nat)
    ensures SkipName(data, pos)
      == if RawLabels(data, pos).Some? then Some(RawLabels(data, pos).value.1) else None
    decreases |data| - pos
  {
    if pos < |data| && 0 < data[pos] < 0xC0 {
      SkipNameRaw(data, pos + data[pos] + 1);
    }
  }

  ghost predicate LabelsValid(data: seq<byte>, pos: nat) {
    var raw := RawLabels(data, pos);
    raw.Some? ==> AllValid(raw.value.0)
  }

  /**
   The reader succeeds exactly where the skipper does and every label is valid
   UTF-8; then both stop at the same offset and the name is the joined labels.
   */
  lemma WalkersAgree(data: seq<byte>, pos: nat)
    ensures ReadName(data, pos).Some? <==> SkipName(data, pos).Some? && LabelsValid(data, pos)
    ensures ReadName(data, pos).Some? ==>
      && RawLabels(data, pos).Some?
      && ReadName(data, pos).value == (JoinLabels(RawLabels(data, pos).value.0), SkipName(data, pos).value)
  {
    ReadLabelsRaw(data, pos, []);
    SkipNameRaw(data, pos);
    if RawLabels(data, pos).Some? {
      assert [] + RawLabels(data, pos).value.0 == RawLabels(data, pos).value.0;
    }
  }

  // ---- encoded names --------------------------------------------------

  /** A name ends with a zero, or with a pointer to the rest of it (RFC 1035, sections 3.1 and 4.1.4). */
  predicate IsEnding(ending: seq<byte>) {
    ending == [0] || (|ending| == 2 && ending[0] >= 0xC0)
  }

  predicate AreWireLabels(labels: seq<seq<byte>>) {
    forall i | 0 <= i < |labels| :: 1 <= |labels[i]| <= 63
  }

  /** The encoding of a name: each label behind its length, and the ending. */
  function EncodeName(labels: seq<seq<byte>>, ending: seq<byte>): seq<byte>
    requires AreWireLabels(labels)
  {
    if labels == [] then ending else [|labels[0]|] + labels[0] + EncodeName(labels[1..], ending)
  }

  lemma {:induction false} EncodedRaw(data: seq<byte>, pos: nat, labels: seq<seq<byte>>, ending: seq<byte>)
    requires AreWireLabels(labels) && IsEnding(ending)
    requires pos <= |data| && EncodeName(labels, ending) <= data[pos..]
    ensures RawLabels(data, pos) == Some((labels, pos + |EncodeName(labels, ending)|))
    decreases |labels|
  {
    if labels == [] {
      assert data[pos] == data[pos..][0] == ending[0];
    } else {
      EncodedStep(labels, ending);
      hide RawLabels, EncodeName, IsEnding;
      var first := labels[0];
      LabelStands(data[pos..], first, EncodeName(labels[1..], ending));
      var next := pos + 1 + |first|;
      assert data[pos..][1 + |first|..] == data[next..];
      assert data[pos] == data[pos..][0];
      assert data[pos + 1..next] == data[pos..][1..1 + |first|];
      EncodedRaw(data, next, labels[1..], ending);
      FirstLabelRaw(data, pos, first);
      assert [first] + labels[1..] == labels;
    }
  }

  lemma EncodedStep(labels: seq<seq<byte>>, ending: seq<byte>)
    requires labels != [] && AreWireLabels(labels)
    ensures EncodeName(labels, ending) == [|labels[0]|] + labels[0] + EncodeName(labels[1..], ending)
  {
  }

  lemma LabelStands(data: seq<byte>, first: seq<byte>, rest: seq<byte>)
    requires [|first|] + first + rest <= data
    ensures data[0] == |first| && data[1..1 + |first|] == first && rest <= data[1 + |first|..]
  {
    var text := [|first|] + first + rest;
    assert data[..|text|] == text;
    assert data[1..1 + |first|] == text[1..1 + |first|] == first;
    assert data[1 + |first|..|text|] == text[1 + |first|..] == rest;
  }

  lemma FirstLabelRaw(data: seq<byte>, pos: nat, first: seq<byte>)
    requires pos + 1 + |first| <= |data| && 1 <= |first| <= 63
    requires data[pos] == |first| && data[pos + 1..pos + 1 + |first|] == first
    ensures
      var raw := RawLabels(data, pos + 1 + |first|);
      RawLabels(data, pos) == if raw.None? then None else Some(([first] + raw.value.0, raw.value.1))
  {
  }

  /** A name encoded from valid labels is read as their dotted form, wherever it stands. */
  lemma EncodedNameReads(data: seq<byte>, pos: nat, labels: seq<seq<byte>>, ending: seq<byte>)
    requires AreWireLabels(labels) && IsEnding(ending) && AllValid(labels)
    requires pos <= |data| && EncodeName(labels, ending) <= data[pos..]
    ensures ReadName(data, pos) == Some((JoinLabels(labels), pos + |EncodeName(labels, ending)|))
  {
    hide RawLabels, EncodeName, ReadLabels, JoinLabels, IsEnding;
    EncodedRaw(data, pos, labels, ending);
    ReadLabelsRaw(data, pos, []);
    assert [] + labels == labels;
  }

  // ---- top-level domains ----------------------------------------------

  /** How names are lowered: `to_lowercase`. */
  type Lowering = seq<byte> -> seq<byte>

  predicate NameMatches(name: seq<byte>, tlds: seq<seq<byte>>, lower: Lowering) {
    var lowered := lower(name);
    exists i | 0 <= i < |tlds| :: lowered == tlds[i] || IsSuffix([DOT] + tlds[i], lowered)
  }

  predicate MatchesTld(data: seq<byte>, tlds: seq<seq<byte>>, lower: Lowering) {
    match ParseFirstQuestion(data)
    case None => false
    case Some((name, _)) => NameMatches(name, tlds, lower)
  }

  /** A query without a readable name is not local. */
  lemma UnreadableIsNotLocal(data: seq<byte>, tlds: seq<seq<byte>>, lower: Lowering)
    requires |data| < 12 || ReadName(data, 12) == None
    ensures !MatchesTld(data, tlds, lower)
  {
  }

  /** The labels of a dotted name. */
  function LabelsOf(name: seq<byte>): seq<seq<byte>> {
    Split(name, DOT)
  }

  function LowerAll(labels: seq<seq<byte>>): (r: seq<seq<byte>>)
    ensures |r| == |labels| && forall i | 0 <= i < |r| :: r[i] == Lower(labels[i])
  {
    if labels == [] then [] else [Lower(labels[0])] + LowerAll(labels[1..])
  }

  lemma {:induction false} LowerJoined(labels: seq<seq<byte>>)
    ensures Lower(JoinLabels(labels)) == JoinLabels(LowerAll(labels))
    decreases |labels|
  {
    if |labels| == 1 {
      assert LowerAll(labels)[0] == Lower(labels[0]);
    } else if |labels| > 1 {
      var rest := JoinLabels(labels[1..]);
      LowerJoined(labels[1..]);
      assert LowerAll(labels)[1..] == LowerAll(labels[1..]);
      assert Lower(labels[0] + [DOT] + rest) == Lower(labels[0]) + [DOT] + Lower(rest);
    }
  }

  predicate DotFree(labels: seq<seq<byte>>) {
    labels != [] && forall i | 0 <= i < |labels| :: DOT !in labels[i]
  }

  /** The textual test asks whether the domain's labels end the name's. */
  lemma EndsWithLabels(name: seq<byte>, tld: seq<byte>)
    ensures name == tld || IsSuffix([DOT] + tld, name) <==> IsSuffix(LabelsOf(tld), LabelsOf(name))
  {
    EndsByParts(name, tld, DOT);
  }

  /** Whatever lowering does: a name is one of ours exactly when the labels of some domain end those of the lowered name. */
  lemma NameMatchesByLabels(name: seq<byte>, tlds: seq<seq<byte>>, lower: Lowering)
    ensures NameMatches(name, tlds, lower)
      <==> exists i | 0 <= i < |tlds| :: IsSuffix(LabelsOf(tlds[i]), LabelsOf(lower(name)))
  {
    var lowered := lower(name);
    forall i | 0 <= i < |tlds|
      ensures lowered == tlds[i] || IsSuffix([DOT] + tlds[i], lowered) <==> IsSuffix(LabelsOf(tlds[i]), LabelsOf(lowered))
    {
      EndsWithLabels(lowered, tlds[i]);
    }
  }

  /**
   The same of a whole query whose first name is encoded from `labels`, when
   lowering the name gives the dot-free labels `lowered`.
   */
  lemma MatchesTldByLabels(
    query: seq<byte>, labels: seq<seq<byte>>, ending: seq<byte>, lowered: seq<seq<byte>>, tlds: seq<seq<byte>>,
    lower: Lowering)
    requires AllValid(labels) && AreWireLabels(labels) && IsEnding(ending)
    requires 12 + |EncodeName(labels, ending)| + 2 <= |query| && EncodeName(labels, ending) <= query[12..]
    requires lower(JoinLabels(labels)) == JoinLabels(lowered) && DotFree(lowered)
    ensures MatchesTld(query, tlds, lower) <==> exists i | 0 <= i < |tlds| :: IsSuffix(LabelsOf(tlds[i]), lowered)
  {
    hide EncodeName, ReadName, NameMatches, Join, AllValid, IsSuffix, Split, IsEnding;
    EncodedNameReads(query, 12, labels, ending);
    NameMatchesByLabels(JoinLabels(labels), tlds, lower);
    SplitJoined(lowered, DOT);
  }

  predicate AsciiLabels(labels: seq<seq<byte>>) {
    forall i, k | 0 <= i < |labels| && 0 <= k < |labels[i]| :: labels[i][k] < 0x80
  }

  /** On ASCII labels without dots, lowering works label by label. */
  lemma MatchesTldAscii(query: seq<byte>, labels: seq<seq<byte>>, ending: seq<byte>, tlds: seq<seq<byte>>)
    requires DotFree(labels) && AsciiLabels(labels) && AreWireLabels(labels) && IsEnding(ending)
    requires 12 + |EncodeName(labels, ending)| + 2 <= |query| && EncodeName(labels, ending) <= query[12..]
    ensures MatchesTld(query, tlds, Lower) <==> exists i | 0 <= i < |tlds| :: IsSuffix(LabelsOf(tlds[i]), LowerAll(labels))
  {
    hide EncodeName, MatchesTld, JoinLabels, IsSuffix, LabelsOf, ValidUtf8, IsEnding;
    var lowered := LowerAll(labels);
    LowerJoined(labels);
    forall i | 0 <= i < |labels|
      ensures ValidUtf8(labels[i]) && DOT !in lowered[i]
    {
      AsciiIsValid(labels[i]);
      assert lowered[i] == Lower(labels[i]);
      assert forall k | 0 <= k < |labels[i]| :: labels[i][k] != DOT;
    }
    MatchesTldByLabels(query, labels, ending, lowered, tlds, Lower);
  }

  predicate IsUpper(b: byte) {
    'A' as int <= b <= 'Z' as int
  }

  /** The same letter, in whatever case, or the same other byte. */
  predicate SameLetter(a: byte, b: byte) {
    a == b || (IsUpper(a) && b == a + 32) || (IsUpper(b) && a == b + 32)
  }

  /** ASCII texts are lowered to the same text exactly if they differ in the case of letters only. */
  lemma LowerForgetsCase(a: seq<byte>, b: seq<byte>)
    ensures Lower(a) == Lower(b) <==> |a| == |b| && forall i | 0 <= i < |a| :: SameLetter(a[i], b[i])
  {
    assert forall x: byte, y: byte :: LowerByte(x) == LowerByte(y) <==> SameLetter(x, y);
    if Lower(a) == Lower(b) {
      assert |a| == |Lower(a)| == |b|;
      forall i | 0 <= i < |a|
        ensures SameLetter(a[i], b[i])
      {
        assert Lower(a)[i] == Lower(b)[i];
      }
    }
  }

  /** A lower-case text is lowered to itself. */
  lemma LowerKeepsLower(s: seq<byte>)
    requires forall i | 0 <= i < |s| :: !IsUpper(s[i])
    ensures Lower(s) == s
  {
  }

  lemma {:induction false} AsciiIsValid(s: seq<byte>)
    requires forall k | 0 <= k < |s| :: s[k] < 0x80
    ensures ValidUtf8(s)
  {
    if s == [] {
    } else {
      AsciiIsValid(s[1..]);
    }
  }

  // ---- responses re-parse ---------------------------------------------

  /** Both messages hold the same bytes from `start` up to `end`. */
  ghost predicate SameBytes(a: seq<byte>, b: seq<byte>, start: nat, end: nat) {
    end <= |a| && end <= |b| && forall k | start <= k < end :: a[k] == b[k]
  }

  lemma {:induction false} RawLabelsLocal(a: seq<byte>, b: seq<byte>, pos: nat)
    requires RawLabels(a, pos).Some? && SameBytes(a, b, pos, RawLabels(a, pos).value.1)
    ensures RawLabels(b, pos) == RawLabels(a, pos)
    decreases |a| - pos
  {
    RawLabelsGrow(a, pos);
    if 0 < a[pos] < 0xC0 {
      var end := pos + 1 + a[pos];
      RawLabelsGrow(a, end);
      RawLabelsLocal(a, b, end);
      assert a[pos + 1..end] == b[pos + 1..end];
    }
  }

  lemma RawLabelsGrow(data: seq<byte>, pos: nat)
    requires RawLabels(data, pos).Some?
    ensures pos < RawLabels(data, pos).value.1
  {
    SkipNameRaw(data, pos);
  }

  /** Reading and skipping a name look at nothing outside it. */
  lemma NameLocal(a: seq<byte>, b: seq<byte>, pos: nat)
    requires SkipName(a, pos).Some? && SameBytes(a, b, pos, SkipName(a, pos).value)
    ensures SkipName(b, pos) == SkipName(a, pos) && ReadName(b, pos) == ReadName(a, pos)
  {
    SkipNameRaw(a, pos);
    RawLabelsLocal(a, b, pos);
    SkipNameRaw(b, pos);
    WalkersAgree(a, pos);
    WalkersAgree(b, pos);
  }

  lemma {:induction false} QuestionsLocal(a: seq<byte>, b: seq<byte>, count: nat, pos: nat)
    requires QuestionsEnd(a, count, pos).Some? && SameBytes(a, b, pos, QuestionsEnd(a, count, pos).value)
    ensures QuestionsEnd(b, count, pos) == QuestionsEnd(a, count, pos)
    decreases count
  {
    if count == 0 {
    } else {
      NameLocal(a, b, pos);
      QuestionsLocal(a, b, count - 1, SkipName(a, pos).value + 4);
    }
  }

  /** A resource record: its name pointer and fixed fields, and the offset behind it. */
  datatype Record = Record(namePointer: nat, rtype: nat, rclass: nat, ttl: nat, data: seq<byte>)

  /** Reads a record whose name is a pointer (RFC 1035, sections 4.1.3 and 4.1.4). */
  function ReadRecord(data: seq<byte>, pos: nat): Option<(Record, nat)> {
    if pos + 12 > |data| || data[pos] < 0xC0 then None
    else
      var length := U16At(data, pos + 10);
      if pos + 12 + length > |data| then None
      else
        Some((Record(U16At(data, pos) - 0xC000, U16At(data, pos + 2), U16At(data, pos + 4),
                     U16At(data, pos + 6) * 0x1_0000 + U16At(data, pos + 8), data[pos + 12..pos + 12 + length]),
              pos + 12 + length))
  }

  /**
   The response to a query with at least one question asks the same questions,
   byte for byte, and its counts and length describe exactly what follows: for
   an A query one record that gives the first name the address 127.0.0.1.
   */
  lemma ResponseReparses(query: seq<byte>, resp: seq<byte>)
    requires ParseFirstQuestion(query).Some? && QuestionSectionEnd(query).Some? && QdCount(query) >= 1
    requires IsResponse(query, resp)
    ensures ParseFirstQuestion(resp) == ParseFirstQuestion(query)
    ensures QuestionSectionEnd(resp) == QuestionSectionEnd(query)
    ensures var end := QuestionSectionEnd(query).value;
      && resp[12..end] == query[12..end]
      && U16At(resp, 6) == (if ParseFirstQuestion(query).value.1 == 1 then 1 else 0)
      && (U16At(resp, 6) == 0 ==> |resp| == end)
      && (U16At(resp, 6) == 1 ==>
            ReadRecord(resp, end) == Some((Record(12, 1, 1, 60, [127, 0, 0, 1]), |resp|)))
  {
    hide ReadName, SkipName, AnswerBytes, ReadRecord, RawLabels;
    var end := QuestionSectionEnd(query).value;
    SameSection(query, resp);
    QuestionsLocal(query, resp, QdCount(query), 12);
    FirstQuestionLocal(query, resp, end);
    if U16At(resp, 6) == 1 {
      AnswerReads(resp, end);
    }
  }

  lemma SameSection(query: seq<byte>, resp: seq<byte>)
    requires ParseFirstQuestion(query).Some? && QuestionSectionEnd(query).Some? && IsResponse(query, resp)
    ensures SameBytes(query, resp, 12, QuestionSectionEnd(query).value)
  {
    var end := QuestionSectionEnd(query).value;
    forall k | 12 <= k < end
      ensures query[k] == resp[k]
    {
      assert query[12..end][k - 12] == resp[12..end][k - 12];
    }
  }

  /** The first question is read from the bytes of the section alone. */
  lemma FirstQuestionLocal(query: seq<byte>, resp: seq<byte>, end: nat)
    requires ParseFirstQuestion(query).Some? && QuestionSectionEnd(query) == Some(end) && QdCount(query) >= 1
    requires 12 <= |resp| && SameBytes(query, resp, 12, end)
    ensures ParseFirstQuestion(resp) == ParseFirstQuestion(query)
  {
    hide ReadName, SkipName, RawLabels;
    WalkersAgree(query, 12);
    NameLocal(query, resp, 12);
  }

  lemma AnswerReads(resp: seq<byte>, end: nat)
    requires |resp| == end + 16 && resp[end..] == AnswerBytes()
    ensures ReadRecord(resp, end) == Some((Record(12, 1, 1, 60, [127, 0, 0, 1]), |resp|))
  {
    var answer := AnswerBytes();
    assert forall k | 0 <= k < 16 :: resp[end + k] == resp[end..][k] == answer[k];
    assert U16At(answer, 6) * 0x1_0000 + U16At(answer, 8) == TTL by {
      assert answer[6..10] == U32Bytes(TTL);
      assert forall k | 0 <= k < 4 :: answer[6..10][k] == answer[6 + k];
    }
    assert resp[end + 12..end + 16] == [127, 0, 0, 1];
  }

  // ---- encoded queries ------------------------------------------------

  /** A question (RFC 1035, section 4.1.2). */
  datatype Question = Question(labels: seq<seq<byte>>, ending: seq<byte>, qtype: nat, qclass: nat) {
    predicate Valid() {
      AreWireLabels(labels) && IsEnding(ending) && qtype < 0x1_0000 && qclass < 0x1_0000
    }
  }

  predicate AllQuestions(questions: seq<Question>) {
    forall i | 0 <= i < |questions| :: questions[i].Valid()
  }

  function EncodeQuestion(q: Question): seq<byte>
    requires q.Valid()
  {
    EncodeName(q.labels, q.ending) + (U16Bytes(q.qtype) + U16Bytes(q.qclass))
  }

  function EncodeQuestions(questions: seq<Question>): seq<byte>
    requires AllQuestions(questions)
  {
    if questions == [] then [] else EncodeQuestion(questions[0]) + EncodeQuestions(questions[1..])
  }

  /** A resource record whose name is a pointer (RFC 1035, sections 4.1.3 and 4.1.4). */
  function EncodeRecord(r: Record): seq<byte>
    requires r.namePointer < 0x4000 && r.rtype < 0x1_0000 && r.rclass < 0x1_0000 && r.ttl < 0x1_0000_0000
    requires |r.data| < 0x1_0000
  {
    U16Bytes(0xC000 + r.namePointer) + U16Bytes(r.rtype) + U16Bytes(r.rclass) + U32Bytes(r.ttl)
    + U16Bytes(|r.data|) + r.data
  }

  lemma PrefixParts(a: seq<byte>, b: seq<byte>, data: seq<byte>, pos: nat)
    requires pos <= |data| && a + b <= data[pos..]
    ensures a <= data[pos..] && pos + |a| <= |data| && b <= data[pos + |a|..]
  {
    assert data[pos..][..|a| + |b|] == a + b;
    assert data[pos + |a|..] == data[pos..][|a|..];
    assert a == (a + b)[..|a|] && b == (a + b)[|a|..];
  }

  lemma U16Stands(n: nat, data: seq<byte>, pos: nat)
    requires n < 0x1_0000 && pos <= |data| && U16Bytes(n) <= data[pos..]
    ensures pos + 2 <= |data| && U16At(data, pos) == n
  {
    assert data[pos] == data[pos..][0] && data[pos + 1] == data[pos..][1];
  }

  /** An encoded question is passed over with its type and class. */
  lemma QuestionStands(q: Question, data: seq<byte>, pos: nat)
    requires q.Valid() && pos <= |data| && EncodeQuestion(q) <= data[pos..]
    ensures var end := pos + |EncodeName(q.labels, q.ending)|;
      && SkipName(data, pos) == Some(end) && end + 4 == pos + |EncodeQuestion(q)| <= |data|
      && U16At(data, end) == q.qtype
      && (AllValid(q.labels) ==> ReadName(data, pos) == Some((JoinLabels(q.labels), end)))
  {
    hide EncodeName, RawLabels, SkipName, ReadName, IsEnding, U16Bytes, U16At;
    var name, fields := EncodeName(q.labels, q.ending), U16Bytes(q.qtype) + U16Bytes(q.qclass);
    PrefixParts(name, fields, data, pos);
    PrefixParts(U16Bytes(q.qtype), U16Bytes(q.qclass), data, pos + |name|);
    U16Stands(q.qtype, data, pos + |name|);
    EncodedRaw(data, pos, q.labels, q.ending);
    SkipNameRaw(data, pos);
    if AllValid(q.labels) {
      EncodedNameReads(data, pos, q.labels, q.ending);
    }
  }

  lemma {:induction false} QuestionsStand(questions: seq<Question>, data: seq<byte>, pos: nat)
    requires AllQuestions(questions) && pos <= |data| && EncodeQuestions(questions) <= data[pos..]
    ensures QuestionsEnd(data, |questions|, pos) == Some(pos + |EncodeQuestions(questions)|)
    decreases |questions|
  {
    if questions == [] {
    } else {
      hide EncodeQuestion, SkipName;
      var first, rest := questions[0], questions[1..];
      PrefixParts(EncodeQuestion(first), EncodeQuestions(rest), data, pos);
      QuestionStands(first, data, pos);
      QuestionsStand(rest, data, pos + |EncodeQuestion(first)|);
    }
  }

  /** The query announces and holds these questions, the first one with a readable name. */
  ghost predicate Asks(query: seq<byte>, questions: seq<Question>) {
    && |query| >= 12 && questions != [] && AllQuestions(questions) && AllValid(questions[0].labels)
    && QdCount(query) == |questions| && EncodeQuestions(questions) <= query[12..]
  }

  /** What is read of an encoded query: the end of its questions, and the name and type of the first one. */
  lemma EncodedQueryReads(query: seq<byte>, questions: seq<Question>)
    requires Asks(query, questions)
    ensures QuestionSectionEnd(query) == Some(12 + |EncodeQuestions(questions)|)
    ensures ParseFirstQuestion(query) == Some((JoinLabels(questions[0].labels), questions[0].qtype))
  {
    hide EncodeQuestion, ReadName, SkipName, JoinLabels, AllValid;
    QuestionsStand(questions, query, 12);
    PrefixParts(EncodeQuestion(questions[0]), EncodeQuestions(questions[1..]), query, 12);
    QuestionStands(questions[0], query, 12);
  }

  /** The header of an answer (RFC 1035, section 4.1.1) with these counts and no further records. */
  function EncodeHeader(id: seq<byte>, questions: nat, answers: nat): seq<byte>
    requires questions < 0x1_0000 && answers < 0x1_0000
  {
    id + [0x81, 0x80] + (U16Bytes(questions) + U16Bytes(answers)) + [0, 0, 0, 0]
  }

  function EncodeAnswers(qtype: nat): seq<byte> {
    if qtype == 1 then EncodeRecord(Record(12, 1, 1, 60, [127, 0, 0, 1])) else []
  }

  lemma AnswerIsRecord()
    ensures AnswerBytes() == EncodeAnswers(1)
  {
  }

  /**
   The response, byte by byte: the identifier of the query, the flags of an
   answer with recursion, the counts, the questions, and for a first question
   of type A one record that gives the first name the address 127.0.0.1 for a minute.
   */
  lemma ResponseIs(query: seq<byte>, questions: seq<Question>, resp: seq<byte>)
    requires Asks(query, questions)
    requires ParseFirstQuestion(query).Some? && QuestionSectionEnd(query).Some? && IsResponse(query, resp)
    ensures
      resp == EncodeHeader(query[..2], |questions|, if questions[0].qtype == 1 then 1 else 0)
              + EncodeQuestions(questions) + EncodeAnswers(questions[0].qtype)
  {
    hide EncodeQuestions, AnswerBytes, EncodeAnswers, ParseFirstQuestion, QuestionSectionEnd, EncodeHeader, JoinLabels;
    EncodedQueryReads(query, questions);
    SectionIs(query, questions, resp);
    HeaderIs(query, resp, |questions|, if questions[0].qtype == 1 then 1 else 0);
    AnswersAre(resp, 12 + |EncodeQuestions(questions)|, questions[0].qtype);
    ThreeParts(resp, 12, 12 + |EncodeQuestions(questions)|);
  }

  lemma ThreeParts(s: seq<byte>, i: nat, j: nat)
    requires i <= j <= |s|
    ensures s == s[..i] + s[i..j] + s[j..]
  {
  }

  lemma SectionIs(query: seq<byte>, questions: seq<Question>, resp: seq<byte>)
    requires Asks(query, questions) && 12 + |EncodeQuestions(questions)| <= |resp|
    requires var end := 12 + |EncodeQuestions(questions)|; end <= |query| && resp[12..end] == query[12..end]
    ensures resp[12..12 + |EncodeQuestions(questions)|] == EncodeQuestions(questions)
  {
    hide EncodeQuestions;
    var section := EncodeQuestions(questions);
    assert query[12..12 + |section|] == query[12..][..|section|] == section;
  }

  lemma AnswersAre(resp: seq<byte>, end: nat, qtype: nat)
    requires end <= |resp| && resp[end..] == if qtype == 1 then AnswerBytes() else []
    ensures resp[end..] == EncodeAnswers(qtype)
  {
    AnswerIsRecord();
    hide AnswerBytes;
  }

  lemma HeaderIs(query: seq<byte>, resp: seq<byte>, questions: nat, answers: nat)
    requires |query| >= 2 && |resp| >= 12 && questions < 0x1_0000 && answers < 0x1_0000
    requires resp[..2] == query[..2] && resp[2..4] == [0x81, 0x80]
    requires U16At(resp, 4) == questions && U16At(resp, 6) == answers && U16At(resp, 8) == 0 && U16At(resp, 10) == 0
    ensures resp[..12] == EncodeHeader(query[..2], questions, answers)
  {
    U16Unique(resp[4], resp[5], questions);
    U16Unique(resp[6], resp[7], answers);
    var counts := [resp[4], resp[5]] + [resp[6], resp[7]];
    assert resp[4..8] == counts && resp[8..12] == [0, 0, 0, 0];
    assert resp[..12] == resp[..2] + resp[2..4] + resp[4..8] + resp[8..12];
  }

  lemma U16Unique(high: byte, low: byte, n: nat)
    requires n < 0x1_0000 && high * 256 + low == n
    ensures U16Bytes(n) == [high, low]
  {
  }

  /** The query `a IN A`, as it is on the wire. */
  function AddressQuery(): seq<byte> {
    [7, 9, 1, 0, 0, 1, 0, 0, 0, 0, 0, 0, 1, 97, 0, 0, 1, 0, 1]
  }

  /** Its response, as it is on the wire. */
  lemma AddressIsAnswered(resp: seq<byte>)
    ensures ParseFirstQuestion(AddressQuery()) == Some(([97], 1)) && QuestionSectionEnd(AddressQuery()) == Some(19)
    ensures IsResponse(AddressQuery(), resp) ==>
      resp == [7, 9, 0x81, 0x80, 0, 1, 0, 1, 0, 0, 0, 0] + [1, 97, 0, 0, 1, 0, 1]
              + [0xC0, 12, 0, 1, 0, 1, 0, 0, 0, 60, 0, 4, 127, 0, 0, 1]
  {
    ExampleAsks();
    ExampleBytes();
    hide *;
    EncodedQueryReads(AddressQuery(), [AddressQuestion()]);
    if IsResponse(AddressQuery(), resp) {
      ResponseIs(AddressQuery(), [AddressQuestion()], resp);
    }
  }

  function AddressQuestion(): Question {
    Question([[97]], [0], 1, 1)
  }

  lemma ExampleQuestion()
    ensures AllQuestions([AddressQuestion()]) && EncodeQuestions([AddressQuestion()]) == [1, 97, 0, 0, 1, 0, 1]
  {
    assert [[97]][1..] == [] && EncodeName([[97]], [0]) == [1, 97, 0];
    assert [AddressQuestion()][1..] == [];
    assert EncodeQuestion(AddressQuestion()) == [1, 97, 0] + ([0, 1] + [0, 1]);
  }

  lemma ExampleBytes()
    ensures EncodeHeader(AddressQuery()[..2], 1, 1) == [7, 9, 0x81, 0x80, 0, 1, 0, 1, 0, 0, 0, 0]
    ensures EncodeAnswers(1) == [0xC0, 12, 0, 1, 0, 1, 0, 0, 0, 60, 0, 4, 127, 0, 0, 1]
    ensures AllQuestions([AddressQuestion()]) && EncodeQuestions([AddressQuestion()]) == [1, 97, 0, 0, 1, 0, 1]
    ensures JoinLabels(AddressQuestion().labels) == [97] && AddressQuestion().qtype == 1
  {
    assert AddressQuery()[..2] == [7, 9];
    ExampleQuestion();
    hide EncodeQuestions;
  }

  lemma ExampleAsks()
    ensures Asks(AddressQuery(), [AddressQuestion()])
  {
    ExampleQuestion();
    hide EncodeQuestions;
    assert AddressQuery()[12..] == [1, 97, 0, 0, 1, 0, 1];
    assert ValidUtf8([97]);
  }
}
