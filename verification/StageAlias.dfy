/**
 Naming the first stage of a Dockerfile (`src/commands/validate.rs`), as the
 repository's own stage reader sees it (`src/runtime/compose_file.rs`).
 */
module StageAlias {
  import opened Wrappers
  import opened Text
  import opened TextLines

  // ---- tokens ---------------------------------------------------------

  /** The characters up to the first white space. */
  function Word(s: string): (r: string)
    ensures r <= s
    ensures forall k | 0 <= k < |r| :: !IsWhite(r[k])
    ensures |r| < |s| ==> IsWhite(s[|r|])
  {
    if s == "" || IsWhite(s[0]) then "" else [s[0]] + Word(s[1..])
  }

  /** `split_whitespace`. */
  function Tokens(s: string): seq<string>
    decreases |s|
  {
    var t := TrimStart(s);
    if t == "" then [] else [Word(t)] + Tokens(t[|Word(t)|..])
  }

  function Lower(c: char): char {
    if 'A' <= c <= 'Z' then (c as int + 32) as char else c
  }

  /** `eq_ignore_ascii_case`. */
  predicate EqIgnoreCase(a: string, b: string) {
    |a| == |b| && forall k | 0 <= k < |a| :: Lower(a[k]) == Lower(b[k])
  }

  predicate IsAs(token: string) {
    EqIgnoreCase(token, "AS")
  }

  // ---- reading stages -------------------------------------------------

  predicate IsFromLine(line: string) {
    var trimmed := TrimStart(line);
    trimmed != "" && trimmed[0] != '#' && Tokens(trimmed) != [] && EqIgnoreCase(Tokens(trimmed)[0], "FROM")
  }

  function StripStageQuotes(stage: string): string {
    TrimBack(TrimMatches(TrimMatches(stage, '"'), '\''), '\r')
  }

  /** The stage that the first `AS` among the tokens names. */
  function StageAfter(parts: seq<string>): Option<string> {
    if parts == [] then None
    else if IsAs(parts[0]) then if |parts| > 1 then Some(StripStageQuotes(parts[1])) else None
    else StageAfter(parts[1..])
  }

  function StageOf(line: string): Option<string> {
    if IsFromLine(line) then StageAfter(Tokens(TrimStart(line))[1..]) else None
  }

  function Stages(lines: seq<string>): set<string> {
    if lines == [] then {}
    else Stages(lines[1..]) + match StageOf(lines[0]) case None => {} case Some(stage) => {stage}
  }

  function DockerfileStages(content: string): set<string> {
    Stages(Lines(content))
  }

  method StartsWithFrom(line: string) returns (r: bool)
    ensures r == IsFromLine(line)
  {
    var trimmed := TrimStart(line);
    if trimmed == "" || "#" <= trimmed {
      return false;
    }
    var parts := Tokens(trimmed);
    r := parts != [] && EqIgnoreCase(parts[0], "FROM");
  }

  method ComputeStageAfter(parts: seq<string>) returns (stage: Option<string>)
    ensures stage == StageAfter(parts)
  {
    var k := 0;
    while k < |parts|
      invariant 0 <= k <= |parts|
      invariant StageAfter(parts) == StageAfter(parts[k..])
    {
      assert parts[k..][1..] == parts[k + 1..];
      if IsAs(parts[k]) {
        return if k + 1 < |parts| then Some(StripStageQuotes(parts[k + 1])) else None;
      }
      k := k + 1;
    }
    stage := None;
  }

  method ComputeDockerfileStages(content: string) returns (stages: set<string>)
    ensures stages == DockerfileStages(content)
  {
    stages := {};
    var lines := Lines(content);
    hide Lines, Tokens, StageAfter, EqIgnoreCase;
    for i := 0 to |lines|
      invariant Stages(lines) == stages + Stages(lines[i..])
    {
      assert lines[i..][1..] == lines[i + 1..];
      var from := StartsWithFrom(lines[i]);
      if from {
        var stage := ComputeStageAfter(Tokens(TrimStart(lines[i]))[1..]);
        if stage.Some? {
          stages := stages + {stage.value};
        }
      }
    }
  }

  // ---- adding an alias ------------------------------------------------

  predicate IsSafeChar(c: char) {
    IsDigit(c) || 'a' <= c <= 'z' || 'A' <= c <= 'Z' || c == '_' || c == '-' || c == '.'
  }

  predicate IsSafeStageName(target: string) {
    target != "" && forall k | 0 <= k < |target| :: IsSafeChar(target[k])
  }

  /** An `AS` with something behind it stands in front of the first token that starts with `#`. */
  predicate HasAlias(parts: seq<string>) {
    if parts == [] || "#" <= parts[0] then false
    else if IsAs(parts[0]) && |parts| > 1 then true
    else HasAlias(parts[1..])
  }

  method LineHasFromAlias(line: string) returns (r: bool)
    ensures r == HasAlias(Tokens(line))
  {
    var parts := Tokens(line);
    var k := 0;
    while k < |parts|
      invariant 0 <= k <= |parts|
      invariant HasAlias(parts) == HasAlias(parts[k..])
    {
      assert parts[k..][1..] == parts[k + 1..];
      if "#" <= parts[k] {
        return false;
      }
      if IsAs(parts[k]) && k + 1 < |parts| {
        return true;
      }
      k := k + 1;
    }
    r := false;
  }

  /** Where the first ` #` stands. */
  function FindComment(s: string): (r: Option<nat>)
    ensures r.Some? ==> r.value + 1 < |s| && s[r.value] == ' ' && s[r.value + 1] == '#'
  {
    if |s| < 2 then None
    else if s[0] == ' ' && s[1] == '#' then Some(0)
    else
      match FindComment(s[1..])
      case None => None
      case Some(i) => Some(i + 1)
  }

  /** The part of a line in front of which the alias goes, and the comment. */
  function Kept(line: string): (r: string)
    ensures r <= line
  {
    match FindComment(line)
    case None => line
    case Some(i) => line[..i]
  }

  function AddAlias(line: string, target: string): string {
    TrimEnd(Kept(line)) + " AS " + target + line[|Kept(line)|..]
  }

  /** The first FROM line. */
  function FirstFrom(lines: seq<string>): (r: Option<nat>)
    ensures r.Some? ==> r.value < |lines| && IsFromLine(lines[r.value])
    ensures r.Some? ==> forall j | 0 <= j < r.value :: !IsFromLine(lines[j])
    ensures r.None? ==> forall j | 0 <= j < |lines| :: !IsFromLine(lines[j])
  {
    if lines == [] then None
    else if IsFromLine(lines[0]) then Some(0)
    else
      match FirstFrom(lines[1..])
      case None => None
      case Some(i) => Some(i + 1)
  }

  /** `add_stage_alias_to_first_from`. */
  function AddStageAlias(content: string, target: string): Option<string> {
    var lines := Lines(content);
    match FirstFrom(lines)
    case None => None
    case Some(i) =>
      if HasAlias(Tokens(TrimStart(lines[i]))) then None
      else Some(ToText(lines[i := AddAlias(lines[i], target)], EndsWithNewline(content)))
  }

  method ComputeAddStageAlias(content: string, target: string) returns (r: Option<string>)
    ensures r == AddStageAlias(content, target)
  {
    var lines := Lines(content);
    hide IsFromLine, Tokens, Lines, Join, HasAlias;
    for i := 0 to |lines|
      invariant forall j | 0 <= j < i :: !IsFromLine(lines[j])
    {
      var from := StartsWithFrom(lines[i]);
      if !from {
        continue;
      }
      var aliased := LineHasFromAlias(TrimStart(lines[i]));
      if aliased {
        return None;
      }
      var updated := Join(lines[i := AddAlias(lines[i], target)], "\n");
      return Some(updated + if EndsWithNewline(content) then "\n" else "");
    }
    r := None;
  }

  // ---- tokens of concatenated text ------------------------------------

  lemma TokensStep(s: string)
    ensures TrimStart(s) == "" ==> Tokens(s) == []
    ensures TrimStart(s) != "" ==>
      Tokens(s) == [Word(TrimStart(s))] + Tokens(TrimStart(s)[|Word(TrimStart(s))|..])
  {
    hide TrimStart, Word;
  }

  lemma {:induction false} TokensConcat(a: string, b: string)
    requires b != "" && IsWhite(b[0])
    ensures Tokens(a + b) == Tokens(a) + Tokens(b)
    decreases |a|
  {
    hide Tokens, TrimStart, Word;
    var t := TrimStart(a);
    TrimStartConcat(a, b);
    TokensStep(a);
    TokensStep(a + b);
    if t == "" {
      TokensStep(b);
    } else {
      WordConcat(t, b);
      FirstWord(t);
      var word, rest := Word(t), t[|Word(t)|..];
      CutConcat(t, b, |word|);
      TokensConcat(rest, b);
      assert Tokens(a + b) == [word] + (Tokens(rest) + Tokens(b));
    }
  }

  lemma CutConcat(a: string, b: string, k: nat)
    requires k <= |a|
    ensures (a + b)[k..] == a[k..] + b
  {
  }

  lemma FirstWord(t: string)
    requires t != "" && !IsWhite(t[0])
    ensures Word(t) != "" && Word(t)[0] == t[0]
  {
  }

  lemma {:induction false} WordConcat(t: string, tail: string)
    requires tail != "" && IsWhite(tail[0])
    ensures Word(t + tail) == Word(t)
  {
    if t != "" && !IsWhite(t[0]) {
      assert (t + tail)[1..] == t[1..] + tail;
      WordConcat(t[1..], tail);
    } else {
      assert t == "" ==> t + tail == tail;
    }
  }

  lemma TokensWhiteEnd(s: string)
    requires s != "" && IsWhite(s[|s| - 1])
    ensures Tokens(s) == Tokens(s[..|s| - 1])
  {
    var front, last := s[..|s| - 1], s[|s| - 1..];
    TokensStep(last);
    assert TrimStart(last) == "";
    hide Tokens;
    TokensConcat(front, last);
    assert s == front + last;
  }

  lemma {:induction false} TokensTrimEnd(s: string)
    ensures Tokens(TrimEnd(s)) == Tokens(s)
    decreases |s|
  {
    if s != "" && IsWhite(s[|s| - 1]) {
      TokensWhiteEnd(s);
      TokensTrimEnd(s[..|s| - 1]);
    }
  }

  lemma TokensTrimStart(s: string)
    ensures Tokens(TrimStart(s)) == Tokens(s)
  {
    assert TrimStart(TrimStart(s)) == TrimStart(s);
  }

  lemma {:induction false} WordIsAll(s: string)
    requires forall k | 0 <= k < |s| :: !IsWhite(s[k])
    ensures Word(s) == s
  {
    if s == "" {
    } else {
      WordIsAll(s[1..]);
    }
  }

  lemma OneToken(s: string)
    requires s != "" && forall k | 0 <= k < |s| :: !IsWhite(s[k])
    ensures Tokens(s) == [s]
  {
    WordIsAll(s);
    assert s[|s|..] == "" && Tokens("") == [];
  }

  // ---- lines and stages -----------------------------------------------

  /** A FROM line is told by its first token alone. */
  lemma FromByTokens(line: string)
    ensures IsFromLine(line) <==> Tokens(line) != [] && EqIgnoreCase(Tokens(line)[0], "FROM")
  {
    var trimmed := TrimStart(line);
    TokensTrimStart(line);
    if trimmed != "" {
      assert Tokens(line)[0] == Word(trimmed) && Word(trimmed)[0] == trimmed[0];
      assert "FROM"[0] == 'F';
    }
  }

  function StageOfTokens(parts: seq<string>): Option<string> {
    if parts != [] && EqIgnoreCase(parts[0], "FROM") then StageAfter(parts[1..]) else None
  }

  lemma StageByTokens(line: string)
    ensures StageOf(line) == StageOfTokens(Tokens(line))
  {
    FromByTokens(line);
    TokensTrimStart(line);
  }

  lemma StageIgnoresCr(line: string)
    ensures StageOf(StripCr(line)) == StageOf(line)
  {
    if line != "" && line[|line| - 1] == '\r' {
      TokensWhiteEnd(line);
    }
    StageByTokens(line);
    StageByTokens(StripCr(line));
  }

  predicate NoAs(parts: seq<string>) {
    forall k | 0 <= k < |parts| :: !IsAs(parts[k])
  }

  lemma {:induction false} StageBehind(front: seq<string>, back: seq<string>)
    requires NoAs(front)
    ensures StageAfter(front + back) == StageAfter(back)
    decreases |front|
  {
    if front == [] {
      assert front + back == back;
    } else {
      assert (front + back)[1..] == front[1..] + back;
      StageBehind(front[1..], back);
    }
  }

  /** If no stage is named although an `AS` is there, it is the last token. */
  lemma {:induction false} UnnamedAs(parts: seq<string>)
    requires StageAfter(parts) == None && !NoAs(parts)
    ensures parts != [] && IsAs(parts[|parts| - 1]) && NoAs(parts[..|parts| - 1])
    decreases |parts|
  {
    if !IsAs(parts[0]) {
      var k :| 0 <= k < |parts| && IsAs(parts[k]);
      assert IsAs(parts[1..][k - 1]);
      UnnamedAs(parts[1..]);
      assert forall j | 1 <= j < |parts| - 1 :: parts[j] == parts[1..][..|parts| - 2][j - 1];
    }
  }

  lemma SafeNameStays(target: string)
    requires IsSafeStageName(target)
    ensures StripStageQuotes(target) == target
  {
    assert IsSafeChar(target[0]) && IsSafeChar(target[|target| - 1]);
  }

  lemma CommentTokens(line: string)
    ensures Tokens(line) == Tokens(Kept(line)) + Tokens(line[|Kept(line)|..])
    ensures line[|Kept(line)|..] != "" ==> line[|Kept(line)|] == ' '
    ensures Tokens(line[|Kept(line)|..]) != [] ==> "#" <= Tokens(line[|Kept(line)|..])[0]
  {
    var kept, comment := Kept(line), line[|Kept(line)|..];
    assert line == kept + comment;
    if FindComment(line).Some? {
      assert comment[0] == ' ' && comment[1] == '#';
      hide *;
      CommentOpens(comment);
      TokensConcat(kept, comment);
    } else {
      assert comment == "" && line == kept;
      TokensStep("");
      hide *;
      assert Tokens(line) + [] == Tokens(line);
    }
  }

  lemma CommentOpens(comment: string)
    requires |comment| >= 2 && comment[0] == ' ' && comment[1] == '#'
    ensures Tokens(comment) != [] && "#" <= Tokens(comment)[0]
  {
    assert TrimStart(comment) == comment[1..] && comment[1..][0] == '#';
    TokensStep(comment);
    FirstWord(comment[1..]);
  }

  lemma TokensBeforeSpace(word: string, rest: string)
    requires word != "" && forall k | 0 <= k < |word| :: !IsWhite(word[k])
    requires rest == "" || rest[0] == ' '
    ensures Tokens(word + rest) == [word] + Tokens(rest)
  {
    OneToken(word);
    TokensStep("");
    hide Tokens;
    if rest == "" {
      assert word + rest == word;
    } else {
      TokensConcat(word, rest);
    }
  }

  lemma TokensAfterSpace(s: string)
    ensures Tokens(" " + s) == Tokens(s)
  {
    TokensTrimStart(" " + s);
    TokensTrimStart(s);
    assert (" " + s)[1..] == s;
  }

  /** The tokens of a line with the alias: those kept, the alias, and those of the comment. */
  lemma AliasTokens(line: string, target: string)
    requires IsSafeStageName(target)
    ensures Tokens(AddAlias(line, target)) == Tokens(Kept(line)) + ["AS", target] + Tokens(line[|Kept(line)|..])
  {
    hide Tokens, TrimEnd, FindComment, TrimStart;
    var kept, comment := Kept(line), line[|Kept(line)|..];
    CommentTokens(line);
    assert forall k | 0 <= k < |target| :: IsSafeChar(target[k]);
    TokensBeforeSpace(target, comment);
    TokensAfterSpace(target + comment);
    TokensBeforeSpace("AS", " " + (target + comment));
    var alias := " " + ("AS" + (" " + (target + comment)));
    TokensAfterSpace("AS" + (" " + (target + comment)));
    TokensConcat(TrimEnd(kept), alias);
    TokensTrimEnd(kept);
    assert AddAlias(line, target) == TrimEnd(kept) + alias;
  }

  /** What `AS target` behind tokens that name no stage makes the reader see. */
  lemma NamedBehind(kept: seq<string>, comment: seq<string>, target: string)
    requires IsSafeStageName(target) && StageAfter(kept + comment) == None
    ensures StageAfter(kept + ["AS", target] + comment) == Some(if NoAs(kept) then target else "AS")
  {
    var alias := ["AS", target] + comment;
    assert kept + ["AS", target] + comment == kept + alias;
    assert IsAs("AS") && alias[1] == target;
    SafeNameStays(target);
    SafeNameStays("AS");
    if NoAs(kept) {
      StageBehind(kept, alias);
    } else {
      var all := kept + comment;
      var k :| 0 <= k < |kept| && IsAs(kept[k]);
      assert IsAs(all[k]);
      UnnamedAs(all);
      var front := all[..|all| - 1];
      assert k == |all| - 1 by {
        assert forall j | 0 <= j < |front| :: front[j] == all[j];
      }
      assert kept + alias == front + ([kept[k]] + alias);
      StageBehind(front, [kept[k]] + alias);
    }
  }

  lemma CommentIsNotFrom(token: string)
    requires "#" <= token
    ensures !EqIgnoreCase(token, "FROM")
  {
    assert token[0] == '#' && "FROM"[0] == 'F';
  }

  lemma FromHasNoAlias(parts: seq<string>)
    requires parts != [] && EqIgnoreCase(parts[0], "FROM") && StageAfter(parts[1..]) == None
    ensures !HasAlias(parts)
  {
    FromIsNotAs(parts[0]);
    UnnamedHasNoAlias(parts[1..]);
  }

  lemma FromIsNotAs(token: string)
    requires EqIgnoreCase(token, "FROM")
    ensures !IsAs(token)
  {
  }

  /** The `FROM` of a line is not in its comment. */
  lemma FromIsKept(kept: seq<string>, comment: seq<string>)
    requires kept + comment != [] && EqIgnoreCase((kept + comment)[0], "FROM")
    requires comment != [] ==> "#" <= comment[0]
    ensures kept != [] && EqIgnoreCase(kept[0], "FROM")
    ensures NoAs(kept) <==> NoAs(kept[1..])
  {
    if kept == [] {
      CommentIsNotFrom(comment[0]);
      assert false;
    } else {
      FromIsNotAs(kept[0]);
      assert kept == [kept[0]] + kept[1..];
      assert forall k | 1 <= k < |kept| :: kept[1..][k - 1] == kept[k];
    }
  }

  /** A line with an alias names a stage. */
  lemma {:induction false} UnnamedHasNoAlias(parts: seq<string>)
    requires StageAfter(parts) == None
    ensures !HasAlias(parts)
    decreases |parts|
  {
    if parts != [] && !IsAs(parts[0]) {
      UnnamedHasNoAlias(parts[1..]);
    }
  }

  /**
   On a FROM line that names no stage, the added alias is what the reader sees
   exactly if no `AS` stands in front of it, or the alias itself is `AS`.
   */
  lemma AliasIsRead(line: string, target: string)
    requires IsSafeStageName(target) && IsFromLine(line) && StageOf(line) == None
    ensures StageOf(AddAlias(line, target)) == Some(if NoAs(Tokens(Kept(line))) then target else "AS")
    ensures !HasAlias(Tokens(TrimStart(line)))
  {
    hide Tokens, TrimEnd, TrimStart, Kept, AddAlias, EqIgnoreCase, StageAfter, StripStageQuotes, NoAs, HasAlias, FindComment;
    var kept, comment := Tokens(Kept(line)), Tokens(line[|Kept(line)|..]);
    CommentTokens(line);
    AliasTokens(line, target);
    StageByTokens(line);
    StageByTokens(AddAlias(line, target));
    FromByTokens(line);
    TokensTrimStart(line);
    FromHasNoAlias(Tokens(line));
    FromIsKept(kept, comment);
    var parts := kept + comment;
    assert parts[1..] == kept[1..] + comment;
    var aliased := kept + ["AS", target] + comment;
    assert aliased[0] == kept[0] && aliased[1..] == kept[1..] + ["AS", target] + comment;
    NamedBehind(kept[1..], comment, target);
  }

  // ---- the whole file -------------------------------------------------

  lemma {:induction false} StagesByLine(lines: seq<string>, stage: string)
    ensures stage in Stages(lines) <==> exists k | 0 <= k < |lines| :: StageOf(lines[k]) == Some(stage)
    decreases |lines|
  {
    if lines == [] {
    } else {
      StagesByLine(lines[1..], stage);
      if stage in Stages(lines[1..]) {
        var k :| 0 <= k < |lines| - 1 && StageOf(lines[1..][k]) == Some(stage);
        assert StageOf(lines[k + 1]) == Some(stage);
      }
      if k :| 1 <= k < |lines| && StageOf(lines[k]) == Some(stage) {
        assert StageOf(lines[1..][k - 1]) == Some(stage);
      }
    }
  }

  /** Replacing a line that names no stage adds the stage of the new line. */
  lemma StagesUpdate(lines: seq<string>, changed: seq<string>, i: nat, stage: string)
    requires i < |lines| == |changed|
    requires forall k | 0 <= k < |lines| && k != i :: StageOf(changed[k]) == StageOf(lines[k])
    requires StageOf(lines[i]) == None && StageOf(changed[i]) == Some(stage)
    ensures Stages(changed) == Stages(lines) + {stage}
  {
    hide StageOf, Stages;
    forall s: string
      ensures s in Stages(changed) <==> s in Stages(lines) + {stage}
    {
      StagesByLine(lines, s);
      StagesByLine(changed, s);
    }
  }

  lemma AliasIsOneLine(line: string, target: string)
    requires '\n' !in line && IsSafeStageName(target)
    ensures '\n' !in AddAlias(line, target)
    ensures AddAlias(line, target) != ""
  {
    assert forall c | c in target :: IsSafeChar(c);
    assert forall c | c in TrimEnd(Kept(line)) :: c in line;
  }

  /**
   Naming the first FROM line when it names no stage: nothing but that line
   changes (a doubled carriage return in front of a line feed aside), and
   the repository's own reader finds the stages it found before and the name
   that this line now gives.
   */
  lemma AliasAdded(content: string, target: string)
    requires IsSafeStageName(target) && FirstFrom(Lines(content)).Some?
    requires StageOf(Lines(content)[FirstFrom(Lines(content)).value]) == None
    ensures AddStageAlias(content, target).Some?
    ensures
      var lines, i := Lines(content), FirstFrom(Lines(content)).value;
      var updated := AddStageAlias(content, target).value;
      && Lines(updated) == Reread(lines[i := AddAlias(lines[i], target)], EndsWithNewline(content))
      && EndsWithNewline(updated) == EndsWithNewline(content)
      && DockerfileStages(updated) ==
         DockerfileStages(content) + {if NoAs(Tokens(Kept(lines[i]))) then target else "AS"}
  {
    hide IsFromLine, Tokens, Kept, AddAlias, HasAlias, EqIgnoreCase, Lines, ToText, NoAs, StageOf, IsSafeStageName, Stages;
    var lines, newline := Lines(content), EndsWithNewline(content);
    var i := FirstFrom(lines).value;
    var changed := lines[i := AddAlias(lines[i], target)];
    AliasIsRead(lines[i], target);
    LinesWritable(content);
    AliasIsOneLine(lines[i], target);
    assert Writable(changed, newline);
    TextReads(changed, newline);
    var read := Reread(changed, newline);
    forall k | 0 <= k < |lines|
      ensures StageOf(read[k]) == StageOf(changed[k])
    {
      StageIgnoresCr(changed[k]);
    }
    StagesUpdate(lines, read, i, if NoAs(Tokens(Kept(lines[i]))) then target else "AS");
  }

  /**
   A Dockerfile without a named stage gets exactly the target as its stage,
   if and only if no `AS` dangles at the end of its first FROM line.
   */
  lemma AliasIsOnlyStage(content: string, target: string)
    requires IsSafeStageName(target) && DockerfileStages(content) == {}
    ensures AddStageAlias(content, target).Some? <==> FirstFrom(Lines(content)).Some?
    ensures FirstFrom(Lines(content)).Some? ==>
      var line := Lines(content)[FirstFrom(Lines(content)).value];
      && AddStageAlias(content, target).Some?
      && (DockerfileStages(AddStageAlias(content, target).value) == {target}
          <==> NoAs(Tokens(Kept(line))) || target == "AS")
  {
    hide IsFromLine, Tokens, Kept, NoAs, StageOf, Stages, Lines, HasAlias, EqIgnoreCase, AddAlias, IsSafeStageName;
    var lines := Lines(content);
    if FirstFrom(lines).Some? {
      var i := FirstFrom(lines).value;
      if StageOf(lines[i]).Some? {
        StagesByLine(lines, StageOf(lines[i]).value);
        assert false;
      }
      AliasAdded(content, target);
    }
  }

  /** A FROM line that ends in a bare `AS`. */
  function DanglingFrom(image: string): string {
    "FROM " + (image + " AS")
  }

  /** The reader sees a stage called `AS` there, whatever the target. */
  lemma DanglingAs(image: string, target: string)
    requires IsSafeStageName(image) && !IsAs(image) && IsSafeStageName(target)
    ensures DockerfileStages(DanglingFrom(image)) == {}
    ensures AddStageAlias(DanglingFrom(image), target).Some?
    ensures DockerfileStages(AddStageAlias(DanglingFrom(image), target).value) == {"AS"}
  {
    DanglingLine(image);
    OneLineFile(DanglingFrom(image));
    hide *;
    AliasAdded(DanglingFrom(image), target);
  }

  lemma OneLineFile(line: string)
    requires line != "" && '\n' !in line && IsFromLine(line) && StageOf(line) == None
    ensures Lines(line) == [line] && FirstFrom(Lines(line)) == Some(0) && DockerfileStages(line) == {}
  {
    hide StageOf, IsFromLine;
    assert Stages([line]) == Stages([]);
  }

  lemma DanglingLine(image: string)
    requires IsSafeStageName(image) && !IsAs(image)
    ensures
      var line := DanglingFrom(image);
      line != "" && '\n' !in line && IsFromLine(line) && StageOf(line) == None && !NoAs(Tokens(Kept(line)))
  {
    var line := DanglingFrom(image);
    DanglingTokens(image);
    DanglingText(image);
    NoHash(line);
    hide Tokens, FindComment, DanglingFrom;
    assert Kept(line) == line;
    hide Kept;
    StageByTokens(line);
    FromByTokens(line);
    DanglingStage(image);
    hide StageOf, IsFromLine, NoAs;
  }

  lemma DanglingText(image: string)
    requires IsSafeStageName(image)
    ensures DanglingFrom(image) != "" && '\n' !in DanglingFrom(image) && '#' !in DanglingFrom(image)
  {
    assert forall c | c in image :: IsSafeChar(c);
  }

  lemma DanglingStage(image: string)
    requires !IsAs(image)
    ensures StageOfTokens(["FROM", image, "AS"]) == None && !NoAs(["FROM", image, "AS"])
  {
    var parts := ["FROM", image, "AS"];
    var names := parts[1..];
    assert names == [image, "AS"] && names[1..] == ["AS"];
    assert IsAs(parts[2]) && !IsAs(parts[0]);
    assert EqIgnoreCase(parts[0], "FROM") && StageAfter(["AS"]) == None;
  }

  lemma {:induction false} NoHash(s: string)
    requires '#' !in s
    ensures FindComment(s) == None
    decreases |s|
  {
    if |s| < 2 {
    } else {
      NoHash(s[1..]);
    }
  }

  lemma DanglingTokens(image: string)
    requires IsSafeStageName(image)
    ensures Tokens(DanglingFrom(image)) == ["FROM", image, "AS"]
  {
    hide Tokens, TrimStart;
    assert forall k | 0 <= k < |image| :: IsSafeChar(image[k]);
    OneToken("AS");
    TokensAfterSpace("AS");
    assert " " + "AS" == " AS";
    TokensBeforeSpace(image, " AS");
    TokensAfterSpace(image + " AS");
    TokensBeforeSpace("FROM", " " + (image + " AS"));
    assert DanglingFrom(image) == "FROM" + (" " + (image + " AS"));
  }

  /** In particular the stage of `FROM a AS` becomes `AS` instead of `app`. */
  lemma DanglingApp()
    ensures AddStageAlias("FROM a AS", "app").Some?
    ensures DockerfileStages(AddStageAlias("FROM a AS", "app").value) == {"AS"}
  {
    assert IsSafeStageName("a") && !IsAs("a") && IsSafeStageName("app");
    assert DanglingFrom("a") == "FROM a AS";
    hide *;
    DanglingAs("a", "app");
  }

  // ---- letter case ----------------------------------------------------

  predicate IsUpper(c: char) {
    'A' <= c <= 'Z'
  }

  /** The same letter, in whatever case, or the same other character. */
  predicate SameLetter(a: char, b: char) {
    || a == b
    || (IsUpper(a) && b as int == a as int + 32)
    || (IsUpper(b) && a as int == b as int + 32)
  }

  /** Texts are equal but for case exactly if they differ in the case of letters only. */
  lemma EqualButForCase(a: string, b: string)
    ensures EqIgnoreCase(a, b) <==> |a| == |b| && forall k | 0 <= k < |a| :: SameLetter(a[k], b[k])
  {
    assert forall x: char, y: char :: Lower(x) == Lower(y) <==> SameLetter(x, y);
  }

  /** The four spellings of `AS`. */
  lemma SpellingsOfAs(token: string)
    ensures IsAs(token) <==> token in {"AS", "As", "aS", "as"}
  {
    EqualButForCase(token, "AS");
    if |token| == 2 {
      assert token == [token[0], token[1]];
    }
  }

  /** All spellings of `FROM`. */
  lemma SpellingsOfFrom(token: string)
    ensures EqIgnoreCase(token, "FROM")
      <==> |token| == 4 && token[0] in {'F', 'f'} && token[1] in {'R', 'r'} && token[2] in {'O', 'o'} && token[3] in {'M', 'm'}
  {
    EqualButForCase(token, "FROM");
  }

  // ---- lines that have a name -----------------------------------------

  predicate IsName(s: string) {
    s != "" && forall k | 0 <= k < |s| :: !IsWhite(s[k])
  }

  function FourWords(a: string, b: string, c: string, d: string): string {
    a + (" " + (b + (" " + (c + (" " + d)))))
  }

  lemma FourTokens(a: string, b: string, c: string, d: string)
    requires IsName(a) && IsName(b) && IsName(c) && IsName(d)
    ensures Tokens(FourWords(a, b, c, d)) == [a, b, c, d]
  {
    hide Tokens;
    OneToken(d);
    TokensAfterSpace(d);
    TokensBeforeSpace(c, " " + d);
    TokensAfterSpace(c + (" " + d));
    TokensBeforeSpace(b, " " + (c + (" " + d)));
    TokensAfterSpace(b + (" " + (c + (" " + d))));
    TokensBeforeSpace(a, " " + (b + (" " + (c + (" " + d)))));
  }

  lemma NamedTokens(parts: seq<string>)
    requires |parts| == 4 && EqIgnoreCase(parts[0], "FROM") && !IsAs(parts[1]) && IsAs(parts[2])
    requires !("#" <= parts[1])
    ensures StageOfTokens(parts) == Some(StripStageQuotes(parts[3])) && HasAlias(parts)
  {
    hide EqIgnoreCase, StripStageQuotes;
    FromIsNotAs(parts[0]);
    SpellingsOfFrom(parts[0]);
    SpellingsOfAs(parts[2]);
    assert parts[0][0] != '#' && parts[2][0] != '#';
    hide IsAs;
    var names, tail := parts[1..], parts[2..];
    assert names[1..] == tail && names[0] == parts[1] && tail[0] == parts[2] && tail[1] == parts[3];
    assert StageAfter(tail) == Some(StripStageQuotes(parts[3])) && HasAlias(tail);
    assert StageAfter(names) == StageAfter(tail) && HasAlias(names);
  }

  /**
   A FROM line with a stage, in whatever case its keywords are written: the
   reader finds the name without its quotes, and the repair leaves the file alone.
   */
  lemma NamedInAnyCase(from: string, image: string, keyword: string, name: string)
    requires EqIgnoreCase(from, "FROM") && keyword in {"AS", "As", "aS", "as"}
    requires IsName(image) && !IsAs(image) && !("#" <= image) && IsName(name)
    requires '\n' !in image && '\n' !in name && '\r' !in name
    ensures
      var line := FourWords(from, image, keyword, name);
      && DockerfileStages(line) == {StripStageQuotes(name)}
      && forall target :: AddStageAlias(line, target) == None
  {
    var line := FourWords(from, image, keyword, name);
    SpellingsOfAs(keyword);
    SpellingsOfFrom(from);
    assert keyword[0] in {'A', 'a'} && keyword[1] in {'S', 's'};
    FourTokens(from, image, keyword, name);
    NamedTokens([from, image, keyword, name]);
    assert line != "" && '\n' !in line by {
      NoBreak(from, image, keyword, name);
    }
    hide FourWords;
    NamedLine(line, [from, image, keyword, name]);
  }

  lemma NoBreak(a: string, b: string, c: string, d: string)
    requires '\n' !in a && '\n' !in b && '\n' !in c && '\n' !in d
    ensures FourWords(a, b, c, d) != "" && '\n' !in FourWords(a, b, c, d)
  {
  }

  lemma NamedLine(line: string, parts: seq<string>)
    requires line != "" && '\n' !in line && Tokens(line) == parts && |parts| == 4
    requires EqIgnoreCase(parts[0], "FROM") && HasAlias(parts)
    requires StageOfTokens(parts) == Some(StripStageQuotes(parts[3]))
    ensures DockerfileStages(line) == {StripStageQuotes(parts[3])} && forall target :: AddStageAlias(line, target) == None
  {
    hide Tokens, EqIgnoreCase, StageOf, IsFromLine, StripStageQuotes, HasAlias, StageOfTokens;
    StageByTokens(line);
    FromByTokens(line);
    TokensTrimStart(line);
    OneLine(line);
  }

  lemma OneLine(line: string)
    requires line != "" && '\n' !in line && IsFromLine(line)
    ensures Lines(line) == [line] && FirstFrom(Lines(line)) == Some(0)
    ensures DockerfileStages(line) == match StageOf(line) case None => {} case Some(stage) => {stage}
  {
    hide StageOf, IsFromLine;
    assert [line][1..] == [] && Stages([]) == {};
  }

  /** Letters, digits, the underscore, the dash and the dot. */
  predicate IsListed(c: char) {
    c in {
      'A', 'B', 'C', 'D', 'E', 'F', 'G', 'H', 'I', 'J', 'K', 'L', 'M',
      'N', 'O', 'P', 'Q', 'R', 'S', 'T', 'U', 'V', 'W', 'X', 'Y', 'Z',
      'a', 'b', 'c', 'd', 'e', 'f', 'g', 'h', 'i', 'j', 'k', 'l', 'm',
      'n', 'o', 'p', 'q', 'r', 's', 't', 'u', 'v', 'w', 'x', 'y', 'z',
      '0', '1', '2', '3', '4', '5', '6', '7', '8', '9', '_', '-', '.'
    }
  }

  /** A safe name is written in these characters. */
  lemma SafeCharacters(c: char)
    ensures IsSafeChar(c) <==> IsListed(c)
  {
  }

  /** Quotes around a safe name are not part of it. */
  lemma QuotesGo(name: string)
    requires IsSafeStageName(name)
    ensures StripStageQuotes("\"" + name + "\"") == name
    ensures StripStageQuotes("'" + name + "'") == name
    ensures StripStageQuotes(name + "\r") == name
  {
    assert IsSafeChar(name[0]) && IsSafeChar(name[|name| - 1]);
    EndsGo(name, '"');
    EndsGo(name, '\'');
    hide TrimFront, TrimBack;
    TrimStays(name, '"');
    TrimStays(name, '\'');
    TrimStays("'" + name + "'", '"');
    assert ("\"" + name + "\"") == ['"'] + name + ['"'] && ("'" + name + "'") == ['\''] + name + ['\''];
    BackGoes(name, '\r');
    TrimStays(name + "\r", '"');
    TrimStays(name + "\r", '\'');
    BackStays(name, '\r');
  }

  // ---- comments -------------------------------------------------------

  /** No comment starts within the text. */
  predicate HasNoComment(s: string) {
    forall k | 0 <= k < |s| - 1 :: !(s[k] == ' ' && s[k + 1] == '#')
  }

  lemma {:induction false} FindCommentIs(front: string, comment: string)
    requires HasNoComment(front)
    ensures FindComment(front + (" #" + comment)) == Some(|front|)
    ensures FindComment(front) == None
    decreases |front|
  {
    var s := front + (" #" + comment);
    if front == "" {
      assert s == " #" + comment;
    } else {
      assert s[1..] == front[1..] + (" #" + comment);
      assert |front| == 1 ==> s[1] == ' ';
      FindCommentIs(front[1..], comment);
    }
  }

  /** The alias goes in front of the comment, and white space in front of the comment goes. */
  lemma AliasStands(front: string, comment: string, target: string)
    requires HasNoComment(front)
    ensures AddAlias(front + (" #" + comment), target) == TrimEnd(front) + " AS " + target + (" #" + comment)
    ensures AddAlias(front, target) == TrimEnd(front) + " AS " + target
  {
    hide TrimEnd;
    FindCommentIs(front, comment);
    var line := front + (" #" + comment);
    assert line[..|front|] == front && line[|front|..] == " #" + comment;
    assert front[|front|..] == "";
  }

  lemma {:induction false} NoAliasBefore(front: seq<string>, back: seq<string>)
    requires NoAs(front) && (back == [] || "#" <= back[0])
    ensures !HasAlias(front + back)
    decreases |front|
  {
    if front == [] {
      assert front + back == back;
    } else {
      assert (front + back)[1..] == front[1..] + back;
      NoAliasBefore(front[1..], back);
    }
  }

  lemma CommentKept(front: string, comment: string)
    requires HasNoComment(front)
    ensures Tokens(front + (" #" + comment)) == Tokens(front) + Tokens(" #" + comment)
    ensures Tokens(" #" + comment) != [] && "#" <= Tokens(" #" + comment)[0]
  {
    hide Tokens;
    TokensConcat(front, " #" + comment);
    CommentOpens(" #" + comment);
  }

  /** An `AS` in a comment is no alias: the line gets one, in front of the comment. */
  lemma CommentIsNoAlias(front: string, comment: string, target: string)
    requires HasNoComment(front) && IsFromLine(front) && NoAs(Tokens(front))
    requires '\n' !in front && '\n' !in comment
    ensures AddStageAlias(front + (" #" + comment), target)
      == Some(TrimEnd(front) + " AS " + target + (" #" + comment))
  {
    CommentedFrom(front, comment);
    AliasStands(front, comment, target);
    hide *;
    NewAlias(front + (" #" + comment), target);
  }

  lemma CommentedFrom(front: string, comment: string)
    requires HasNoComment(front) && IsFromLine(front) && NoAs(Tokens(front))
    requires '\n' !in front && '\n' !in comment
    ensures
      var line := front + (" #" + comment);
      line != "" && '\n' !in line && IsFromLine(line) && !HasAlias(Tokens(TrimStart(line)))
  {
    var line := front + (" #" + comment);
    assert line != "" && '\n' !in line;
    CommentKept(front, comment);
    hide Tokens, TrimStart, IsFromLine, HasAlias, EqIgnoreCase, NoAs;
    FromByTokens(front);
    FromByTokens(line);
    TokensTrimStart(line);
    NoAliasBefore(Tokens(front), Tokens(" #" + comment));
    assert (Tokens(front) + Tokens(" #" + comment))[0] == Tokens(front)[0];
  }

  /** A file of one FROM line without an alias. */
  lemma NewAlias(line: string, target: string)
    requires line != "" && '\n' !in line && IsFromLine(line) && !HasAlias(Tokens(TrimStart(line)))
    ensures AddStageAlias(line, target) == Some(AddAlias(line, target))
  {
    hide Tokens, IsFromLine, HasAlias, AddAlias, TrimStart;
    OneLine(line);
    var added := AddAlias(line, target);
    assert [line][0 := added] == [added] && !EndsWithNewline(line);
    assert ToText([added], false) == added + "" == added;
  }
}
