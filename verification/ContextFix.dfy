/** The repair of `build.context` entries in a compose file (`src/commands/validate.rs`). */
module ContextFix {
  import opened Wrappers
  import opened Text
  import opened TextLines

  // ---- one line -------------------------------------------------------

  /** The indentation, key and value text of a mapping line. */
  datatype Keyed = Keyed(indent: nat, key: string, value: string) {
    /** `key:` with nothing behind it. */
    predicate Opens(name: string) {
      key == name && Trim(value) == ""
    }
  }

  function YamlKey(line: string): Option<Keyed> {
    var trimmed := TrimStart(line);
    if trimmed == "" || trimmed[0] == '#' then None
    else
      var (left, value) :- SplitOnce(trimmed, ':');
      var key := Trim(left);
      if key == "" || key[0] == '-' || exists c | c in {' ', '{', '}', '[', ']'} :: c in key then None
      else Some(Keyed(|line| - |trimmed|, TrimMatches(TrimMatches(key, '"'), '\''), value))
  }

  /** What stands behind the colon after the replacement of `right`. */
  function NewValue(right: string, value: string): string {
    match Find(right, '#')
    case None => " " + value
    case Some(i) => " " + value + "  " + TrimEnd(right[i..])
  }

  function ReplaceScalar(line: string, value: string): string {
    match SplitOnce(line, ':')
    case None => line
    case Some((left, right)) => left + ":" + NewValue(right, value)
  }

  // ---- the scan -------------------------------------------------------

  /** Where the scan is: the indentations of the open blocks. */
  datatype Scan = Scan(
    services: Option<nat>, serviceIndent: Option<nat>, current: Option<(string, nat)>, build: Option<nat>)

  const OUTSIDE := Scan(None, None, None, None)

  /** New context values by service. */
  type Fixes = map<string, string>

  /** The mapping lines of a file, and nothing for the other lines. */
  type Keys = seq<Option<Keyed>>

  function KeysOf(lines: seq<string>): (keys: Keys)
    ensures |keys| == |lines| && forall i | 0 <= i < |keys| :: keys[i] == YamlKey(lines[i])
  {
    seq(|lines|, i requires 0 <= i < |lines| => YamlKey(lines[i]))
  }

  /** The scan after a line. */
  function Step(fixes: Fixes, st: Scan, key: Option<Keyed>): Scan {
    match key
    case None => st
    case Some(k) =>
      if k.Opens("services") then Scan(Some(k.indent), None, None, None)
      else if st.services.None? then st
      else if k.indent <= st.services.value then OUTSIDE
      else
        var serviceIndent := if st.serviceIndent.Some? then st.serviceIndent.value else k.indent;
        var leaves := st.current.Some? && k.indent <= st.current.value.1;
        var current := if leaves then None else st.current;
        var build := if leaves || (st.build.Some? && k.indent <= st.build.value) then None else st.build;
        var u := Scan(st.services, Some(serviceIndent), current, build);
        if k.indent == serviceIndent then
          u.(current := if k.key in fixes then Some((k.key, k.indent)) else None, build := None)
        else if current.Some? && k.Opens("build") then u.(build := Some(k.indent))
        else u
  }

  /** The line is rewritten, given the scan behind it. */
  predicate IsReplaced(fixes: Fixes, after: Scan, key: Option<Keyed>) {
    && key.Some?
    && var k := key.value;
       && k.key == "context" && after.current.Some? && after.build.Some?
       && after.current.value.0 in fixes && Trim(k.value) != fixes[after.current.value.0]
  }

  /** The scan in front of line `i`. */
  function ScanAt(fixes: Fixes, keys: Keys, i: nat): Scan
    requires i <= |keys|
  {
    if i == 0 then OUTSIDE else Step(fixes, ScanAt(fixes, keys, i - 1), keys[i - 1])
  }

  predicate Replaces(fixes: Fixes, lines: seq<string>, i: nat)
    requires i < |lines|
  {
    IsReplaced(fixes, ScanAt(fixes, KeysOf(lines), i + 1), YamlKey(lines[i]))
  }

  function FixedLine(fixes: Fixes, lines: seq<string>, i: nat): string
    requires i < |lines|
  {
    if Replaces(fixes, lines, i)
    then ReplaceScalar(lines[i], fixes[ScanAt(fixes, KeysOf(lines), i + 1).current.value.0])
    else lines[i]
  }

  function FixLines(fixes: Fixes, lines: seq<string>): seq<string> {
    seq(|lines|, i requires 0 <= i < |lines| => FixedLine(fixes, lines, i))
  }

  predicate Changes(fixes: Fixes, lines: seq<string>) {
    exists i | 0 <= i < |lines| :: Replaces(fixes, lines, i)
  }

  /** The fixed text. */
  function Fix(fixes: Fixes, content: string): string {
    ToText(FixLines(fixes, Lines(content)), EndsWithNewline(content))
  }

  lemma ScanStep(fixes: Fixes, keys: Keys, i: nat)
    requires 1 <= i <= |keys|
    ensures ScanAt(fixes, keys, i) == Step(fixes, ScanAt(fixes, keys, i - 1), keys[i - 1])
  {
  }

  lemma ScanStarts(fixes: Fixes)
    ensures forall keys: Keys :: ScanAt(fixes, keys, 0) == OUTSIDE
  {
  }

  /** `apply_compose_context_fixes`. */
  method ApplyContextFixes(content: string, fixes: Fixes) returns (updated: string, changed: bool)
    ensures updated == Fix(fixes, content)
    ensures changed <==> Changes(fixes, Lines(content))
  {
    hide YamlKey, ReplaceScalar, Trim, Lines, Join, ScanAt;
    ScanStarts(fixes);
    var lines := Lines(content);
    ghost var source, keys := lines, KeysOf(lines);
    changed := false;
    var services: Option<nat>, serviceIndent: Option<nat> := None, None;
    var current: Option<(string, nat)>, build: Option<nat> := None, None;
    for i := 0 to |lines|
      invariant |lines| == |source|
      invariant Scan(services, serviceIndent, current, build) == ScanAt(fixes, keys, i)
      invariant current.Some? ==> services.Some? && current.value.0 in fixes
      invariant build.Some? ==> current.Some?
      invariant forall k | 0 <= k < i :: lines[k] == FixedLine(fixes, source, k)
      invariant forall k | i <= k < |lines| :: lines[k] == source[k]
      invariant changed <==> exists k | 0 <= k < i :: Replaces(fixes, source, k)
    {
      ScanStep(fixes, keys, i + 1);
      var line := lines[i];
      var keyed := YamlKey(line);
      if keyed.None? {
        continue;
      }
      var k := keyed.value;
      if k.Opens("services") {
        services, serviceIndent, current, build := Some(k.indent), None, None, None;
        continue;
      }
      if services.None? {
        continue;
      }
      if k.indent <= services.value {
        services, serviceIndent, current, build := None, None, None, None;
        continue;
      }
      if serviceIndent.None? {
        serviceIndent := Some(k.indent);
      }
      if current.Some? && k.indent <= current.value.1 {
        current, build := None, None;
      }
      if build.Some? && k.indent <= build.value {
        build := None;
      }
      if k.indent == serviceIndent.value {
        current := if k.key in fixes then Some((k.key, k.indent)) else None;
        build := None;
        continue;
      }
      if current.Some? && k.Opens("build") {
        build := Some(k.indent);
        continue;
      }
      if current.Some? && build.Some? && k.key == "context" && Trim(k.value) != fixes[current.value.0] {
        lines := lines[i := ReplaceScalar(line, fixes[current.value.0])];
        changed := true;
        assert Replaces(fixes, source, i);
      }
    }
    assert lines == FixLines(fixes, source);
    updated := Join(lines, "\n");
    if EndsWithNewline(content) {
      updated := updated + "\n";
    } else {
      assert updated + "" == updated;
    }
  }

  // ---- blocks by indentation ------------------------------------------

  predicate IsKeyed(keys: Keys, j: nat) {
    j < |keys| && keys[j].Some?
  }

  function Indent(keys: Keys, j: nat): nat
    requires IsKeyed(keys, j)
  {
    keys[j].value.indent
  }

  function Key(keys: Keys, j: nat): string
    requires IsKeyed(keys, j)
  {
    keys[j].value.key
  }

  /** Line `j` is `name:` with nothing behind it. */
  predicate IsHeader(keys: Keys, j: nat, name: string) {
    IsKeyed(keys, j) && keys[j].value.Opens(name)
  }

  /** Every mapping line behind `j` and before `end` is indented more than line `j`. */
  ghost predicate Encloses(keys: Keys, j: nat, end: nat) {
    && j < end <= |keys| && IsKeyed(keys, j)
    && forall k | j < k < end && IsKeyed(keys, k) :: Indent(keys, k) > Indent(keys, j)
  }

  /** The indentation of the first mapping line from `from` on, before `end`. */
  function FirstIndent(keys: Keys, from: nat, end: nat): Option<nat>
    requires end <= |keys|
    decreases end - from
  {
    if from >= end then None
    else if IsKeyed(keys, from) then Some(Indent(keys, from))
    else FirstIndent(keys, from + 1, end)
  }

  lemma {:induction false} FirstIndentGrows(keys: Keys, from: nat, end: nat)
    requires from <= end < |keys|
    ensures FirstIndent(keys, from, end + 1)
      == if FirstIndent(keys, from, end).Some? then FirstIndent(keys, from, end)
         else if IsKeyed(keys, end) then Some(Indent(keys, end)) else None
    decreases end - from
  {
    if from < end {
      FirstIndentGrows(keys, from + 1, end);
    }
  }

  lemma {:induction false} FirstIndentSome(keys: Keys, from: nat, end: nat, k: nat)
    requires from <= k < end <= |keys| && IsKeyed(keys, k)
    ensures FirstIndent(keys, from, end).Some?
    decreases k - from
  {
    if from < k {
      FirstIndentSome(keys, from + 1, end, k);
    }
  }

  /** The lines before `end` are inside the `services:` block that line `s` opens, the latest one. */
  ghost predicate InServices(keys: Keys, s: nat, end: nat) {
    Encloses(keys, s, end) && IsHeader(keys, s, "services") && forall k | s < k < end :: !IsHeader(keys, k, "services")
  }

  /** … inside the block of the service that line `v` opens, a service named in the fixes. */
  ghost predicate InService(fixes: Fixes, keys: Keys, s: nat, v: nat, end: nat) {
    && s < v && Encloses(keys, v, end) && Key(keys, v) in fixes
    && FirstIndent(keys, s + 1, end) == Some(Indent(keys, v))
  }

  /** … inside the `build:` block that line `b` opens, the latest one of the service. */
  ghost predicate InBuild(keys: Keys, v: nat, b: nat, end: nat) {
    && v < b && Encloses(keys, b, end) && IsHeader(keys, b, "build")
    && forall k | b < k < end :: !IsHeader(keys, k, "build")
  }

  // ---- the scan knows the blocks --------------------------------------

  ghost predicate TracksServices(keys: Keys, end: nat, st: Scan, s: Option<nat>)
    requires end <= |keys|
  {
    && (s.Some? <==> st.services.Some?)
    && (s.Some? ==> InServices(keys, s.value, end) && st.services == Some(Indent(keys, s.value)) &&
                    st.serviceIndent == FirstIndent(keys, s.value + 1, end))
    && (s.None? ==> st.serviceIndent.None? && forall j: nat :: !InServices(keys, j, end))
  }

  ghost predicate TracksService(fixes: Fixes, keys: Keys, end: nat, st: Scan, s: Option<nat>, v: Option<nat>)
    requires end <= |keys|
  {
    && (v.Some? <==> st.current.Some?)
    && (v.Some? ==> s.Some? && InService(fixes, keys, s.value, v.value, end) &&
                    st.current == Some((Key(keys, v.value), Indent(keys, v.value))))
    && (s.Some? && v.None? ==> forall j: nat :: !InService(fixes, keys, s.value, j, end))
  }

  ghost predicate TracksBuild(keys: Keys, end: nat, st: Scan, v: Option<nat>, b: Option<nat>)
    requires end <= |keys|
  {
    && (b.Some? <==> st.build.Some?)
    && (b.Some? ==> v.Some? && InBuild(keys, v.value, b.value, end) && st.build == Some(Indent(keys, b.value)))
    && (v.Some? && b.None? ==> forall j: nat :: !InBuild(keys, v.value, j, end))
  }

  ghost predicate Tracks(
    fixes: Fixes, keys: Keys, end: nat, st: Scan, s: Option<nat>, v: Option<nat>, b: Option<nat>)
    requires end <= |keys|
  {
    TracksServices(keys, end, st, s) && TracksService(fixes, keys, end, st, s, v) && TracksBuild(keys, end, st, v, b)
  }

  /** Line `end` does not end the block of line `j`. */
  ghost predicate StaysIn(keys: Keys, j: nat, end: nat)
    requires IsKeyed(keys, j)
  {
    IsKeyed(keys, end) ==> Indent(keys, end) > Indent(keys, j)
  }

  lemma ServicesGrow(keys: Keys, j: nat, end: nat)
    requires end < |keys|
    ensures InServices(keys, j, end + 1) <==>
      if j == end then IsHeader(keys, end, "services")
      else InServices(keys, j, end) && StaysIn(keys, j, end) && !IsHeader(keys, end, "services")
  {
  }

  lemma ServiceGrows(fixes: Fixes, keys: Keys, s: nat, j: nat, end: nat)
    requires s < end < |keys|
    ensures InService(fixes, keys, s, j, end + 1) <==>
      if j == end then IsKeyed(keys, end) && Key(keys, end) in fixes
        && FirstIndent(keys, s + 1, end + 1) == Some(Indent(keys, end))
      else InService(fixes, keys, s, j, end) && StaysIn(keys, j, end)
  {
    hide FirstIndent;
    var from := s + 1;
    FirstIndentGrows(keys, from, end);
    if s < j < end && IsKeyed(keys, j) {
      FirstIndentSome(keys, from, end, j);
    }
  }

  lemma BuildGrows(keys: Keys, v: nat, j: nat, end: nat)
    requires v < end < |keys|
    ensures InBuild(keys, v, j, end + 1) <==>
      if j == end then IsHeader(keys, end, "build")
      else InBuild(keys, v, j, end) && StaysIn(keys, j, end) && !IsHeader(keys, end, "build")
  {
  }

  lemma OneServices(keys: Keys, j: nat, k: nat, end: nat)
    requires InServices(keys, j, end) && InServices(keys, k, end)
    ensures j == k
  {
  }

  lemma OneService(fixes: Fixes, keys: Keys, s: nat, j: nat, k: nat, end: nat)
    requires InService(fixes, keys, s, j, end) && InService(fixes, keys, s, k, end)
    ensures j == k
  {
  }

  lemma OneBuild(keys: Keys, v: nat, j: nat, k: nat, end: nat)
    requires InBuild(keys, v, j, end) && InBuild(keys, v, k, end)
    ensures j == k
  {
  }

  lemma NextServices(fixes: Fixes, keys: Keys, end: nat, st: Scan, s: Option<nat>)
    returns (s': Option<nat>)
    requires end < |keys| && TracksServices(keys, end, st, s)
    ensures TracksServices(keys, end + 1, Step(fixes, st, keys[end]), s')
    ensures s' == if IsHeader(keys, end, "services") then Some(end)
      else if s.Some? && !StaysIn(keys, s.value, end) then None else s
  {
    hide Trim;
    s' := if IsHeader(keys, end, "services") then Some(end)
      else if s.Some? && !StaysIn(keys, s.value, end) then None else s;
    var next := end + 1;
    forall j: nat
      ensures InServices(keys, j, next) <==> s' == Some(j)
    {
      ServicesGrow(keys, j, end);
      if s.Some? && InServices(keys, j, end) {
        OneServices(keys, s.value, j, end);
      }
    }
    if s'.Some? && s'.value < end {
      FirstIndentGrows(keys, s'.value + 1, end);
    }
  }

  lemma NextService(fixes: Fixes, keys: Keys, end: nat, st: Scan, s: Option<nat>, s': Option<nat>, v: Option<nat>)
    returns (v': Option<nat>)
    requires end < |keys|
    requires TracksServices(keys, end, st, s) && TracksService(fixes, keys, end, st, s, v)
    requires TracksServices(keys, end + 1, Step(fixes, st, keys[end]), s')
    requires s' == if IsHeader(keys, end, "services") then Some(end)
      else if s.Some? && !StaysIn(keys, s.value, end) then None else s
    ensures TracksService(fixes, keys, end + 1, Step(fixes, st, keys[end]), s', v')
    ensures v' == Some(end) || v' == None || (v' == v && StaysIn(keys, v.value, end) && s' == s)
    ensures v'.None? && v.Some? ==> IsKeyed(keys, end)
  {
    hide Trim, InServices;
    var after := Step(fixes, st, keys[end]);
    v' := if after.current.None? then None
      else if v.Some? && s' == s && StaysIn(keys, v.value, end) && s.Some?
              && InService(fixes, keys, s.value, v.value, end + 1) then v
      else Some(end);
    var next := end + 1;
    if s'.Some? && s'.value < end {
      FirstIndentGrows(keys, s'.value + 1, end);
      forall j: nat
        ensures InService(fixes, keys, s'.value, j, next) <==> v' == Some(j)
      {
        ServiceGrows(fixes, keys, s'.value, j, end);
        if v.Some? && InService(fixes, keys, s'.value, j, end) {
          OneService(fixes, keys, s'.value, v.value, j, end);
        }
      }
    }
  }

  lemma NextBuild(
    fixes: Fixes, keys: Keys, end: nat, st: Scan,
    s: Option<nat>, s': Option<nat>, v: Option<nat>, v': Option<nat>, b: Option<nat>)
    returns (b': Option<nat>)
    requires end < |keys| && Tracks(fixes, keys, end, st, s, v, b)
    requires TracksServices(keys, end + 1, Step(fixes, st, keys[end]), s')
    requires TracksService(fixes, keys, end + 1, Step(fixes, st, keys[end]), s', v')
    requires v' == Some(end) || v' == None || (v' == v && StaysIn(keys, v.value, end) && s' == s)
    requires v'.None? && v.Some? ==> IsKeyed(keys, end)
    ensures TracksBuild(keys, end + 1, Step(fixes, st, keys[end]), v', b')
  {
    hide Trim, InServices;
    b' := if v'.None? || v' == Some(end) then None
      else if IsHeader(keys, end, "build") then Some(end)
      else if b.Some? && StaysIn(keys, b.value, end) then b
      else None;
    var next := end + 1;
    if v'.Some? && v'.value < end {
      forall j: nat
        ensures InBuild(keys, v'.value, j, next) <==> b' == Some(j)
      {
        BuildGrows(keys, v'.value, j, end);
        if b.Some? && InBuild(keys, v'.value, j, end) {
          OneBuild(keys, v'.value, b.value, j, end);
        }
      }
    }
  }

  lemma {:induction false} ScanTracks(fixes: Fixes, keys: Keys, end: nat)
    returns (s: Option<nat>, v: Option<nat>, b: Option<nat>)
    requires end <= |keys|
    ensures Tracks(fixes, keys, end, ScanAt(fixes, keys, end), s, v, b)
    decreases end
  {
    if end == 0 {
      s, v, b := None, None, None;
    } else {
      hide Step, TracksServices, TracksService, TracksBuild;
      var s0, v0, b0 := ScanTracks(fixes, keys, end - 1);
      var st := ScanAt(fixes, keys, end - 1);
      s := NextServices(fixes, keys, end - 1, st, s0);
      v := NextService(fixes, keys, end - 1, st, s0, s, v0);
      b := NextBuild(fixes, keys, end - 1, st, s0, s, v0, v, b0);
    }
  }

  // ---- main results ---------------------------------------------------

  /**
   Line `i` is a `context:` line with another value, inside the `build:` block
   `b` of the service `v` of the `services:` block `s`, by indentation.
   */
  ghost predicate IsContextToFix(fixes: Fixes, keys: Keys, s: nat, v: nat, b: nat, i: nat) {
    && i < |keys|
    && InServices(keys, s, i + 1) && InService(fixes, keys, s, v, i + 1) && InBuild(keys, v, b, i + 1)
    && IsKeyed(keys, i) && Key(keys, i) == "context"
    && Trim(keys[i].value.value) != fixes[Key(keys, v)]
  }

  /**
   A line is rewritten if and only if it is a `context:` line to fix, and then
   with the value for its service.
   */
  lemma ReplacesExactly(fixes: Fixes, lines: seq<string>, i: nat)
    requires i < |lines|
    ensures Replaces(fixes, lines, i)
      <==> exists s: nat, v: nat, b: nat :: IsContextToFix(fixes, KeysOf(lines), s, v, b, i)
    ensures forall s: nat, v: nat, b: nat :: IsContextToFix(fixes, KeysOf(lines), s, v, b, i) ==>
      FixedLine(fixes, lines, i) == ReplaceScalar(lines[i], fixes[Key(KeysOf(lines), v)])
  {
    hide YamlKey, Trim, Step, ReplaceScalar;
    var next, keys := i + 1, KeysOf(lines);
    var s, v, b := ScanTracks(fixes, keys, next);
    var st := ScanAt(fixes, keys, next);
    if Replaces(fixes, lines, i) {
      assert IsContextToFix(fixes, keys, s.value, v.value, b.value, i);
    }
    forall s': nat, v': nat, b': nat | IsContextToFix(fixes, keys, s', v', b', i)
      ensures Replaces(fixes, lines, i) && v == Some(v')
    {
      assert InServices(keys, s', next) && InService(fixes, keys, s', v', next) && InBuild(keys, v', b', next);
      OneServices(keys, s.value, s', next);
      OneService(fixes, keys, s', v.value, v', next);
    }
  }

  // ---- a rewritten line -----------------------------------------------

  /** Values that the replacement can carry: trimmed, without line breaks and comments. */
  ghost predicate GoodFixes(fixes: Fixes) {
    forall k | k in fixes :: '#' !in fixes[k] && '\n' !in fixes[k] && Trim(fixes[k]) == fixes[k]
  }

  lemma {:induction false} TrimStartPart(s: string)
    ensures forall c | c in TrimStart(s) :: c in s
    ensures forall c | c in s && !IsWhite(c) :: c in TrimStart(s)
  {
    if s != "" && IsWhite(s[0]) {
      TrimStartPart(s[1..]);
    }
  }

  lemma {:induction false} TrimEndPart(s: string)
    ensures forall c | c in TrimEnd(s) :: c in s
    ensures forall c | c in s && !IsWhite(c) :: c in TrimEnd(s)
    ensures s != "" && !IsWhite(s[0]) ==> TrimEnd(s) != "" && TrimEnd(s)[0] == s[0]
    decreases |s|
  {
    if s != "" && IsWhite(s[|s| - 1]) {
      TrimEndPart(s[..|s| - 1]);
    }
  }

  /** Indentation and key depend only on what stands in front of the colon. */
  function KeyOf(left: string): Option<(nat, string)> {
    var trimmed := TrimStart(left);
    var key := Trim(trimmed);
    if trimmed == "" || trimmed[0] == '#' || key == "" || key[0] == '-' then None
    else if exists c | c in {' ', '{', '}', '[', ']'} :: c in key then None
    else Some((|left| - |trimmed|, TrimMatches(TrimMatches(key, '"'), '\'')))
  }

  lemma SplitOnceParts(left: string, right: string)
    requires ':' !in left
    ensures SplitOnce(left + ":" + right, ':') == Some((left, right))
  {
    var s := left + ":" + right;
    assert forall k | 0 <= k < |left| :: s[k] == left[k];
    FindIs(s, ':', |left|);
    assert s[..|left|] == left && s[|left| + 1..] == right;
  }

  lemma YamlKeyParts(left: string, right: string)
    requires ':' !in left
    ensures YamlKey(left + ":" + right)
      == match KeyOf(left) case None => None case Some((indent, key)) => Some(Keyed(indent, key, right))
  {
    hide TrimMatches, TrimEnd;
    var line := left + ":" + right;
    TrimStartConcat(left, ":" + right);
    assert line == left + (":" + right);
    TrimStartPart(left);
    var trimmed := TrimStart(left);
    var rest := trimmed + ":" + right;
    assert TrimStart(":" + right) == ":" + right;
    assert TrimStart(line) == rest && |line| - |rest| == |left| - |trimmed|;
    hide TrimStart;
    SplitOnceParts(trimmed, right);
    hide SplitOnce;
    assert trimmed == "" ==> rest[0] == ':';
  }

  lemma PlainValueSettles(right: string, value: string)
    requires '#' !in value && Trim(value) == value && '#' !in right
    ensures NewValue(right, value) == " " + value
    ensures NewValue(" " + value, value) == " " + value
    ensures Trim(" " + value) == value
    ensures (" " + value)[|value|] != '\r'
  {
    hide TrimEnd;
    assert '#' !in " " + value;
    assert (" " + value)[1..] == value;
    if value != "" {
      assert Trim(value)[|value| - 1] == value[|value| - 1];
      assert !IsWhite(value[|value| - 1]);
    }
  }

  lemma CommentSettles(value: string, comment: string)
    requires '#' !in value && comment != "" && comment[0] == '#' && TrimEnd(comment) == comment
    ensures var first := " " + value + "  " + comment;
      NewValue(first, value) == first && '#' in Trim(first)
  {
    hide Trim;
    var first := " " + value + "  " + comment;
    assert first[|value| + 3] == '#';
    FindIs(first, '#', |value| + 3);
    assert first[|value| + 3..] == comment;
    TrimKeeps(first, '#');
  }

  lemma TrimKeeps(s: string, c: char)
    requires c in s && !IsWhite(c)
    ensures c in Trim(s)
  {
    TrimStartPart(s);
    TrimEndPart(TrimStart(s));
  }

  lemma NewValueSettles(right: string, value: string)
    requires '#' !in value && Trim(value) == value
    ensures NewValue(NewValue(right, value), value) == NewValue(right, value)
    ensures Trim(NewValue(right, value)) != value <==> '#' in right
    ensures NewValue(right, value)[|NewValue(right, value)| - 1] != '\r'
    ensures '\n' !in right && '\n' !in value ==> '\n' !in NewValue(right, value)
  {
    hide Trim;
    match Find(right, '#')
    case None =>
      PlainValueSettles(right, value);
    case Some(i) =>
      var tail := right[i..];
      var comment := TrimEnd(tail);
      TrimEndPart(tail);
      CommentSettles(value, comment);
      assert !IsWhite(comment[|comment| - 1]);
  }

  /** A rewritten line keeps its indentation and key; rewriting it again changes nothing. */
  lemma RewrittenLine(fixes: Fixes, lines: seq<string>, i: nat)
    requires GoodFixes(fixes) && i < |lines| && Replaces(fixes, lines, i)
    ensures var value := fixes[ScanAt(fixes, KeysOf(lines), i + 1).current.value.0];
      && SplitOnce(lines[i], ':').Some?
      && var right := SplitOnce(lines[i], ':').value.1;
         && YamlKey(FixedLine(fixes, lines, i)) == Some(YamlKey(lines[i]).value.(value := NewValue(right, value)))
         && ReplaceScalar(FixedLine(fixes, lines, i), value) == FixedLine(fixes, lines, i)
         && (Trim(NewValue(right, value)) != value <==> '#' in right)
    ensures FixedLine(fixes, lines, i) != "" && !EndsWithCr(FixedLine(fixes, lines, i))
    ensures '\n' !in lines[i] ==> '\n' !in FixedLine(fixes, lines, i)
  {
    hide ScanAt, Step, YamlKey, ReplaceScalar, SplitOnce, NewValue, Trim;
    var line := lines[i];
    var value := fixes[ScanAt(fixes, KeysOf(lines), i + 1).current.value.0];
    RewrittenText(line, value);
  }

  lemma KeyHasColon(line: string)
    requires YamlKey(line).Some?
    ensures SplitOnce(line, ':').Some?
    ensures
      var (left, right) := SplitOnce(line, ':').value;
      line == left + ":" + right && ':' !in left
  {
    hide Trim, TrimMatches;
    TrimStartPart(line);
  }

  lemma RewrittenText(line: string, value: string)
    requires YamlKey(line).Some? && '#' !in value && '\n' !in value && Trim(value) == value
    ensures SplitOnce(line, ':').Some?
    ensures
      var right := SplitOnce(line, ':').value.1;
      var rewritten := ReplaceScalar(line, value);
      && YamlKey(rewritten) == Some(YamlKey(line).value.(value := NewValue(right, value)))
      && ReplaceScalar(rewritten, value) == rewritten
      && (Trim(NewValue(right, value)) != value <==> '#' in right)
      && rewritten != "" && !EndsWithCr(rewritten)
      && ('\n' !in line ==> '\n' !in rewritten)
  {
    KeyHasColon(line);
    hide KeyOf, YamlKey, Trim, NewValue, SplitOnce;
    var (left, right) := SplitOnce(line, ':').value;
    YamlKeyParts(left, right);
    NewValueSettles(right, value);
    SplitOnceParts(left, NewValue(right, value));
    YamlKeyParts(left, NewValue(right, value));
  }

  // ---- fixing twice ---------------------------------------------------

  lemma StepIgnoresContext(fixes: Fixes, st: Scan, a: Keyed, b: Keyed)
    requires a.key == "context" && b == a.(value := b.value)
    ensures Step(fixes, st, Some(a)) == Step(fixes, st, Some(b))
  {
    hide Trim;
  }

  lemma FixedStep(fixes: Fixes, lines: seq<string>, i: nat, st: Scan)
    requires GoodFixes(fixes) && i < |lines|
    ensures Step(fixes, st, YamlKey(FixedLine(fixes, lines, i))) == Step(fixes, st, YamlKey(lines[i]))
  {
    hide YamlKey, Trim, Step, NewValue;
    if Replaces(fixes, lines, i) {
      RewrittenLine(fixes, lines, i);
      StepIgnoresContext(fixes, st, YamlKey(lines[i]).value, YamlKey(FixedLine(fixes, lines, i)).value);
    }
  }

  lemma {:induction false} ScanStays(fixes: Fixes, lines: seq<string>, i: nat)
    requires GoodFixes(fixes) && i <= |lines|
    ensures ScanAt(fixes, KeysOf(FixLines(fixes, lines)), i) == ScanAt(fixes, KeysOf(lines), i)
    decreases i
  {
    if i == 0 {
    } else {
      var fixed := FixLines(fixes, lines);
      ScanStays(fixes, lines, i - 1);
      ScanStep(fixes, KeysOf(fixed), i);
      ScanStep(fixes, KeysOf(lines), i);
      hide Step, FixedLine, ScanAt, YamlKey;
      FixedStep(fixes, lines, i - 1, ScanAt(fixes, KeysOf(lines), i - 1));
    }
  }

  /** On lines, a second repair changes nothing. */
  lemma FixLinesTwice(fixes: Fixes, lines: seq<string>)
    requires GoodFixes(fixes)
    ensures FixLines(fixes, FixLines(fixes, lines)) == FixLines(fixes, lines)
  {
    hide YamlKey, ReplaceScalar, Trim, NewValue;
    var fixed := FixLines(fixes, lines);
    forall i | 0 <= i < |lines|
      ensures FixedLine(fixes, fixed, i) == fixed[i]
    {
      ScanStays(fixes, lines, i + 1);
      if Replaces(fixes, lines, i) {
        RewrittenLine(fixes, lines, i);
      }
    }
  }

  /** A second repair nevertheless reports a change exactly when a rewritten line carries a `#` behind its colon. */
  lemma ChangesAgainExactly(fixes: Fixes, lines: seq<string>)
    requires GoodFixes(fixes)
    ensures Changes(fixes, FixLines(fixes, lines))
      <==> exists i | 0 <= i < |lines| :: Replaces(fixes, lines, i) && HasComment(lines[i])
  {
    hide YamlKey, ReplaceScalar, Trim, NewValue, SplitOnce;
    var fixed := FixLines(fixes, lines);
    forall i | 0 <= i < |lines|
      ensures Replaces(fixes, fixed, i) <==> Replaces(fixes, lines, i) && HasComment(lines[i])
    {
      ScanStays(fixes, lines, i + 1);
      if Replaces(fixes, lines, i) {
        RewrittenLine(fixes, lines, i);
      }
    }
  }

  /** There is a `#` behind the first colon. */
  predicate HasComment(line: string) {
    match SplitOnce(line, ':')
    case None => false
    case Some((_, right)) => '#' in right
  }

  // ---- text -----------------------------------------------------------

  lemma FixedWritable(fixes: Fixes, content: string)
    requires GoodFixes(fixes)
    ensures Writable(FixLines(fixes, Lines(content)), EndsWithNewline(content))
  {
    hide FixedLine, YamlKey, Replaces;
    var lines := Lines(content);
    LinesWritable(content);
    forall i | 0 <= i < |lines|
      ensures '\n' !in FixedLine(fixes, lines, i) && (lines[i] != "" ==> FixedLine(fixes, lines, i) != "")
    {
      FixedLineText(fixes, lines, i);
    }
  }

  lemma FixedLineText(fixes: Fixes, lines: seq<string>, i: nat)
    requires GoodFixes(fixes) && i < |lines| && '\n' !in lines[i]
    ensures '\n' !in FixedLine(fixes, lines, i) && (lines[i] != "" ==> FixedLine(fixes, lines, i) != "")
    ensures EndsWithCr(FixedLine(fixes, lines, i)) <==> EndsWithCr(lines[i]) && !Replaces(fixes, lines, i)
    ensures !Replaces(fixes, lines, i) ==> FixedLine(fixes, lines, i) == lines[i]
  {
    if Replaces(fixes, lines, i) {
      RewrittenLine(fixes, lines, i);
    }
  }

  /** The repair keeps the number of lines. */
  lemma FixKeepsLineCount(fixes: Fixes, content: string)
    requires GoodFixes(fixes)
    ensures |Lines(Fix(fixes, content))| == |Lines(content)|
  {
    FixedWritable(fixes, content);
    TextReads(FixLines(fixes, Lines(content)), EndsWithNewline(content));
  }

  /** No line that is kept ends in a carriage return in front of its line break. */
  ghost predicate NoStrayCr(fixes: Fixes, content: string) {
    var lines := Lines(content);
    forall i | 0 <= i < |lines| && (EndsWithNewline(content) || i < |lines| - 1) && EndsWithCr(lines[i]) ::
      Replaces(fixes, lines, i)
  }

  /** On text, a second repair changes nothing exactly if no kept line ends in a stray carriage return. */
  lemma FixTwiceExactly(fixes: Fixes, content: string)
    requires GoodFixes(fixes)
    ensures Fix(fixes, Fix(fixes, content)) == Fix(fixes, content) <==> NoStrayCr(fixes, content)
  {
    hide FixedLine, Replaces, Lines, Join, EndsWithNewline;
    var lines, newline := Lines(content), EndsWithNewline(content);
    var fixed := FixLines(fixes, lines);
    FixedWritable(fixes, content);
    TextReads(fixed, newline);
    var read := Reread(fixed, newline);
    forall i | 0 <= i < |lines|
      ensures EndsWithCr(fixed[i]) <==> EndsWithCr(lines[i]) && !Replaces(fixes, lines, i)
      ensures read[i] == fixed[i] <==> !((newline || i < |lines| - 1) && EndsWithCr(fixed[i]))
      ensures FixedLine(fixes, read, i) == fixed[i] ==> read[i] == fixed[i]
    {
      FixedLineText(fixes, lines, i);
      FixedLineText(fixes, read, i);
    }
    if NoStrayCr(fixes, content) {
      assert read == fixed;
      FixLinesTwice(fixes, lines);
    } else {
      var i :| 0 <= i < |lines| && (newline || i < |lines| - 1) && EndsWithCr(lines[i]) && !Replaces(fixes, lines, i);
      assert FixLines(fixes, read)[i] != fixed[i];
      FixedWritable(fixes, Fix(fixes, content));
      if Fix(fixes, Fix(fixes, content)) == Fix(fixes, content) {
        SameText(FixLines(fixes, read), fixed, newline);
      }
    }
  }

  // ---- lines as they are written --------------------------------------

  /** `name:` with nothing but white space behind it. */
  lemma OpensExactly(k: Keyed, name: string)
    ensures k.Opens(name) <==> k.key == name && forall c | c in k.value :: IsWhite(c)
  {
    var value := k.value;
    TrimStartPart(value);
    TrimEndPart(TrimStart(value));
    assert TrimStart(value) != "" ==> TrimStart(value)[0] in TrimStart(value);
  }

  /** What a repair writes: the old key, the new value, and the comment two spaces behind it. */
  lemma RewrittenTo(left: string, front: string, comment: string, value: string)
    requires ':' !in left && '#' !in front
    ensures ReplaceScalar(left + ":" + front, value) == left + ":" + (" " + value)
    ensures ReplaceScalar(left + ":" + (front + ("#" + comment)), value)
      == left + ":" + (" " + value + "  " + TrimEnd("#" + comment))
  {
    SplitOnceParts(left, front);
    SplitOnceParts(left, front + ("#" + comment));
    var right := front + ("#" + comment);
    assert forall k | 0 <= k < |front| :: right[k] == front[k];
    FindIs(right, '#', |front|);
    assert right[|front|..] == "#" + comment;
    hide TrimEnd, SplitOnce;
  }

  predicate IsBareKey(key: string) {
    && key != "" && !IsWhite(key[0]) && !IsWhite(key[|key| - 1]) && key[0] != '#' && key[0] != '-'
    && forall c | c in key :: c !in {':', ' ', '{', '}', '[', ']'}
  }

  lemma {:induction false} WrittenTrims(n: nat, key: string)
    requires key != "" && !IsWhite(key[0]) && ':' !in key
    ensures |Indented(n, key)| == n + |key| && TrimStart(Indented(n, key)) == key && ':' !in Indented(n, key)
  {
    if n == 0 {
    } else {
      WrittenTrims(n - 1, key);
      assert Indented(n, key)[1..] == Indented(n - 1, key);
    }
  }

  /** A bare key is a key, without the quotes around it. */
  lemma BareKeyLine(n: nat, key: string, value: string)
    requires IsBareKey(key)
    ensures YamlKey(Indented(n, key) + ":" + value)
      == Some(Keyed(n, TrimMatches(TrimMatches(key, '"'), '\''), value))
  {
    WrittenTrims(n, key);
    YamlKeyParts(Indented(n, key), value);
    assert Trim(key) == key;
    hide YamlKey, Indented, TrimMatches;
    assert forall c | c in {' ', '{', '}', '[', ']'} :: c !in key;
  }

  lemma QuotesTrim(key: string)
    requires IsWord(key)
    ensures TrimMatches(TrimMatches("\"" + key + "\"", '"'), '\'') == key
    ensures TrimMatches(TrimMatches("'" + key + "'", '"'), '\'') == key
  {
    assert 'a' <= key[0] <= 'z' && 'a' <= key[|key| - 1] <= 'z';
    EndsGo(key, '"');
    EndsGo(key, '\'');
    TrimStays(key, '\'');
    TrimStays("'" + key + "'", '"');
    hide TrimMatches;
    assert ['"'] + key + ['"'] == "\"" + key + "\"" && ['\''] + key + ['\''] == "'" + key + "'";
  }

  /** A key in quotes is read without them. */
  lemma QuotedKeys(n: nat, key: string, value: string)
    requires IsWord(key)
    ensures YamlKey(Indented(n, "\"" + key + "\"") + ":" + value) == Some(Keyed(n, key, value))
    ensures YamlKey(Indented(n, "'" + key + "'") + ":" + value) == Some(Keyed(n, key, value))
  {
    QuotesTrim(key);
    assert IsBareKey("\"" + key + "\"") && IsBareKey("'" + key + "'");
    hide *;
    BareKeyLine(n, "\"" + key + "\"", value);
    BareKeyLine(n, "'" + key + "'", value);
  }

  /** Items, comments, flow collections and texts with spaces are no keys. */
  lemma NoKeys(n: nat, key: string, value: string)
    requires IsWord(key)
    ensures YamlKey(Indented(n, "- " + key) + ":" + value) == None
    ensures YamlKey(Indented(n, "# " + key) + ":" + value) == None
    ensures YamlKey(Indented(n, "{" + key) + ":" + value) == None
    ensures YamlKey(Indented(n, "[" + key) + ":" + value) == None
    ensures YamlKey(Indented(n, key + " " + key) + ":" + value) == None
  {
    hide YamlKey, Indented;
    assert 'a' <= key[0] <= 'z' && 'a' <= key[|key| - 1] <= 'z';
    assert forall c | c in key :: c != ':';
    NoKeyLine(n, "- " + key, value);
    NoKeyLine(n, "# " + key, value);
    assert '{' in "{" + key && '[' in "[" + key;
    NoKeyLine(n, "{" + key, value);
    NoKeyLine(n, "[" + key, value);
    assert (key + " " + key)[|key|] == ' ' && ' ' in key + " " + key;
    NoKeyLine(n, key + " " + key, value);
  }

  lemma NoKeyLine(n: nat, text: string, value: string)
    requires text != "" && !IsWhite(text[0]) && !IsWhite(text[|text| - 1]) && ':' !in text
    requires text[0] == '#' || text[0] == '-' || ' ' in text || '{' in text || '[' in text
    ensures YamlKey(Indented(n, text) + ":" + value) == None
  {
    WrittenTrims(n, text);
    YamlKeyParts(Indented(n, text), value);
    assert Trim(text) == text;
    hide YamlKey, Indented, TrimMatches;
  }

  // ---- where a second repair shows ------------------------------------

  lemma NothingToFix(line: string)
    requires '\n' !in line && line != ""
    ensures Fix(map[], line + "\r" + "\n") == line + "\n"
  {
    hide YamlKey;
    var text := line + "\r" + "\n";
    LinesStep(line + "\r", "");
    assert text + "" == text && Lines(text) == [line];
    assert FixLines(map[], [line]) == [line];
  }

  /** Of two carriage returns in front of a line break each repair takes one away. */
  lemma StrayCrGoes()
    ensures Fix(map[], "x\r\r\n") == "x\r\n"
    ensures Fix(map[], "x\r\n") == "x\n"
  {
    var line := "x";
    assert line + "\r" == "x\r" && "x\r" + "\n" == "x\r\n";
    assert line + "\r" + "\r" == "x\r\r" && "x\r\r" + "\n" == "x\r\r\n" && line + "\n" == "x\n";
    hide *;
    NothingToFix(line + "\r");
    NothingToFix(line);
  }

  function Indented(n: nat, key: string): string {
    if n == 0 then key else " " + Indented(n - 1, key)
  }

  predicate IsWord(s: string) {
    s != "" && forall k | 0 <= k < |s| :: 'a' <= s[k] <= 'z'
  }

  /** `key:value`, indented. */
  function WordLine(n: nat, key: string, value: string): string {
    Indented(n, key) + ":" + value
  }

  lemma WordLineKeyed(n: nat, key: string, value: string)
    requires IsWord(key)
    ensures YamlKey(WordLine(n, key, value)) == Some(Keyed(n, key, value))
    ensures HasComment(WordLine(n, key, value)) <==> '#' in value
  {
    WrittenTrims(n, key);
    YamlKeyParts(Indented(n, key), value);
    SplitOnceParts(Indented(n, key), value);
    WordTrims(key);
    hide YamlKey, SplitOnce, Indented;
    assert forall c | c in {' ', '{', '}', '[', ']'} :: c !in key;
  }

  lemma WordTrims(key: string)
    requires IsWord(key)
    ensures Trim(key) == key && TrimMatches(TrimMatches(key, '"'), '\'') == key
  {
    assert 'a' <= key[0] <= 'z' && 'a' <= key[|key| - 1] <= 'z';
  }

  /** A compose file whose one context is to become `.`, with a comment. */
  function Commented(): seq<string> {
    [WordLine(0, "services", ""), WordLine(2, "app", ""), WordLine(4, "build", ""), WordLine(6, "context", " x # c")]
  }

  /** What `YamlKey` makes of these lines. */
  function CommentedKeys(): Keys {
    [Some(Keyed(0, "services", "")), Some(Keyed(2, "app", "")), Some(Keyed(4, "build", "")),
     Some(Keyed(6, "context", " x # c"))]
  }

  lemma CommentedKeyed()
    ensures |Commented()| == 4 && KeysOf(Commented()) == CommentedKeys() && HasComment(Commented()[3])
    ensures YamlKey(Commented()[3]) == Some(Keyed(6, "context", " x # c"))
  {
    hide YamlKey, HasComment, WordLine;
    WordLineKeyed(0, "services", "");
    WordLineKeyed(2, "app", "");
    WordLineKeyed(4, "build", "");
    WordLineKeyed(6, "context", " x # c");
  }

  lemma ServicesStep(fixes: Fixes, st: Scan, key: Keyed)
    requires key == Keyed(0, "services", "") && Trim("") == ""
    ensures Step(fixes, st, Some(key)) == Scan(Some(0), None, None, None)
  {
    hide Trim;
  }

  lemma ServiceStep(fixes: Fixes)
    requires "app" in fixes
    ensures Step(fixes, Scan(Some(0), None, None, None), Some(Keyed(2, "app", "")))
      == Scan(Some(0), Some(2), Some(("app", 2)), None)
  {
    hide Trim;
    assert "app" != "services";
  }

  lemma BuildStep(fixes: Fixes)
    requires Trim("") == ""
    ensures Step(fixes, Scan(Some(0), Some(2), Some(("app", 2)), None), Some(Keyed(4, "build", "")))
      == Scan(Some(0), Some(2), Some(("app", 2)), Some(4))
  {
    hide Trim;
    assert "build" != "services";
  }

  lemma ContextStep(fixes: Fixes, value: string)
    ensures Step(fixes, Scan(Some(0), Some(2), Some(("app", 2)), Some(4)), Some(Keyed(6, "context", value)))
      == Scan(Some(0), Some(2), Some(("app", 2)), Some(4))
  {
    hide Trim;
    assert "context" != "services" && "context" != "build";
  }

  lemma CommentedScan(fixes: Fixes)
    requires "app" in fixes
    ensures ScanAt(fixes, CommentedKeys(), 4) == Scan(Some(0), Some(2), Some(("app", 2)), Some(4))
  {
    assert Trim("") == "";
    var keys := CommentedKeys();
    hide Trim, ScanAt, Step;
    ScanStep(fixes, keys, 1);
    ScanStep(fixes, keys, 2);
    ScanStep(fixes, keys, 3);
    ScanStep(fixes, keys, 4);
    ServicesStep(fixes, ScanAt(fixes, keys, 0), keys[0].value);
    ServiceStep(fixes);
    BuildStep(fixes);
    ContextStep(fixes, " x # c");
  }

  /** The new value of the one service. */
  function DotFix(): Fixes {
    map["app" := "."]
  }

  lemma DotIsGood()
    ensures GoodFixes(DotFix()) && Trim(" x # c") != "."
  {
    assert Trim(".") == "." && " x # c"[5] == 'c';
  }

  lemma CommentedIsReplaced()
    ensures Replaces(DotFix(), Commented(), 3)
  {
    var lines := Commented();
    DotIsGood();
    CommentedKeyed();
    CommentedScan(DotFix());
    hide Trim, Step, YamlKey, ScanAt, Commented, KeysOf, WordLine;
    assert YamlKey(lines[3]) == Some(Keyed(6, "context", " x # c"));
  }

  /** A repaired line with a comment is reported as changed again although it stays as it is. */
  lemma CommentReportsAgain()
    ensures
      var fixed := FixLines(DotFix(), Commented());
      Changes(DotFix(), fixed) && FixLines(DotFix(), fixed) == fixed
  {
    hide *;
    CommentedKeyed();
    DotIsGood();
    CommentedIsReplaced();
    ChangesAgainExactly(DotFix(), Commented());
    FixLinesTwice(DotFix(), Commented());
  }
}
