/**
 The argument vectors of `exec`: those the commands build
 (`src/commands/shell.rs`, `src/commands/db.rs`), and the parser in the
 runtime shim that takes them apart again (`src/runtime/apple.rs`).
 */
module ExecArgs {
  import opened Wrappers
  import opened Text

  /** What the parser finds: the service, where its command starts, and the translated options. */
  datatype Exec = Exec(service: string, commandStart: nat, options: seq<string>)

  // ---- the parser -----------------------------------------------------

  /** `trim_start_matches(prefix)`: removes the prefix as often as it is there. */
  function TrimPrefix(s: string, prefix: string): string
    requires prefix != ""
    decreases |s|
  {
    if prefix <= s then TrimPrefix(s[|prefix|..], prefix) else s
  }

  predicate IsFlag(arg: string) {
    arg in ["-i", "--interactive", "-t", "--tty", "-it", "-ti"]
  }

  function FlagOptions(arg: string): seq<string> {
    if arg == "-i" || arg == "--interactive" then ["--interactive"]
    else if arg == "-t" || arg == "--tty" then ["--tty"]
    else ["--interactive", "--tty"]
  }

  predicate TakesValue(arg: string) {
    arg in ["-e", "--env", "--env-file", "-u", "--user", "--uid", "--gid", "--ulimit", "-w", "--workdir", "--cwd"]
  }

  /** `exec_option_name` */
  function OptionName(arg: string): string {
    match arg
    case "-e" => "--env"
    case "-u" => "--user"
    case "-w" => "--workdir"
    case "--cwd" => "--workdir"
    case _ => arg
  }

  predicate TakesAssignment(name: string) {
    name in ["--env", "--env-file", "--workdir", "--cwd"]
  }

  /** The option to which the argument assigns a value. */
  function AssignedName(arg: string): (r: Option<string>)
    ensures r.Some? ==> TakesAssignment(r.value) && r.value + "=" <= arg
  {
    if "--env=" <= arg then Some("--env")
    else if "--env-file=" <= arg then Some("--env-file")
    else if "--workdir=" <= arg then Some("--workdir")
    else if "--cwd=" <= arg then Some("--cwd")
    else None
  }

  predicate IsEnvironment(name: string) {
    name == "--env" || name == "--env-file"
  }

  function AssignedOptions(name: string, arg: string): seq<string>
    requires name + "=" <= arg
  {
    if IsEnvironment(name) then [name, TrimPrefix(arg, name + "=")]
    else ["--workdir", arg[|name| + 1..]]
  }

  /** What one argument means to the parser. */
  datatype Meaning =
    | Given(options: seq<string>)
    | Valued(name: string)
    | Service

  function MeaningOf(arg: string): Meaning {
    if IsFlag(arg) then Given(FlagOptions(arg))
    else if TakesValue(arg) then Valued(OptionName(arg))
    else
      match AssignedName(arg)
      case Some(name) => Given(AssignedOptions(name, arg))
      case None => if "-" <= arg then Given([]) else Service
  }

  /** The parser's loop, from an index on, with the options found so far. */
  function ParseFrom(args: seq<string>, index: nat, options: seq<string>): (r: Option<Exec>)
    ensures r.Some? ==> r.value.commandStart <= |args|
    decreases |args| - index
  {
    if index >= |args| then None
    else
      match MeaningOf(args[index])
      case Given(more) => ParseFrom(args, index + 1, options + more)
      case Valued(name) =>
        if index + 1 >= |args| then None else ParseFrom(args, index + 2, options + [name, args[index + 1]])
      case Service => Some(Exec(args[index], index + 1, options))
  }

  /** `parse_exec_service`: the first argument is the subcommand itself. */
  function ParseExec(args: seq<string>): Option<Exec> {
    ParseFrom(args, 1, [])
  }

  lemma SplitAtEquals(prefix: string, value: string)
    requires '=' !in prefix
    ensures SplitOnce(prefix + "=" + value, '=') == Some((prefix, value))
  {
    var arg := prefix + "=" + value;
    assert forall k | 0 <= k < |prefix| :: arg[k] == prefix[k];
    FindIs(arg, '=', |prefix|);
    assert arg[..|prefix|] == prefix && arg[|prefix| + 1..] == value;
  }

  /** Cutting at the first `=` gives what is behind the name. */
  lemma DirectorySplits(arg: string)
    requires "--workdir=" <= arg || "--cwd=" <= arg
    requires !IsFlag(arg) && !TakesValue(arg) && !("--env=" <= arg) && !("--env-file=" <= arg)
    ensures SplitOnce(arg, '=').Some?
    ensures MeaningOf(arg) == Given(["--workdir", SplitOnce(arg, '=').value.1])
  {
    var name := AssignedName(arg).value;
    assert name == "--workdir" || name == "--cwd";
    hide AssignedName;
    assert arg == name + "=" + arg[|name| + 1..];
    SplitAtEquals(name, arg[|name| + 1..]);
  }

  lemma EnvironmentMeans(arg: string)
    requires !IsFlag(arg) && !TakesValue(arg)
    ensures "--env=" <= arg ==> MeaningOf(arg) == Given(["--env", TrimPrefix(arg, "--env=")])
    ensures !("--env=" <= arg) && "--env-file=" <= arg ==>
      MeaningOf(arg) == Given(["--env-file", TrimPrefix(arg, "--env-file=")])
  {
    hide TrimPrefix;
    assert "--env" + "=" == "--env=" && "--env-file" + "=" == "--env-file=";
  }

  lemma FlagMeaning(arg: string)
    ensures IsFlag(arg) ==> MeaningOf(arg) == Given(FlagOptions(arg))
  {
  }

  lemma OtherMeaning(arg: string)
    ensures !IsFlag(arg) && TakesValue(arg) ==> MeaningOf(arg) == Valued(OptionName(arg))
    ensures !IsFlag(arg) && !TakesValue(arg) && AssignedName(arg) == None ==>
      MeaningOf(arg) == if "-" <= arg then Given([]) else Service
  {
  }

  method ParseExecService(args: seq<string>) returns (r: Option<Exec>)
    ensures r == ParseExec(args)
  {
    var index, options: seq<string> := 1, [];
    while index < |args|
      invariant ParseExec(args) == ParseFrom(args, index, options)
    {
      hide TrimPrefix, SplitOnce, OptionName, ParseExec, TakesValue, MeaningOf;
      var arg := args[index];
      FlagMeaning(arg);
      OtherMeaning(arg);
      if arg == "-i" || arg == "--interactive" {
        options := options + ["--interactive"];
        index := index + 1;
      } else if arg == "-t" || arg == "--tty" {
        options := options + ["--tty"];
        index := index + 1;
      } else if arg == "-it" || arg == "-ti" {
        options := options + ["--interactive", "--tty"];
        index := index + 1;
      } else if TakesValue(arg) {
        if index + 1 >= |args| {
          return None;
        }
        options := options + [OptionName(arg), args[index + 1]];
        index := index + 2;
      } else if "--env=" <= arg {
        EnvironmentMeans(arg);
        options := options + ["--env", TrimPrefix(arg, "--env=")];
        index := index + 1;
      } else if "--env-file=" <= arg {
        EnvironmentMeans(arg);
        options := options + ["--env-file", TrimPrefix(arg, "--env-file=")];
        index := index + 1;
      } else if "--workdir=" <= arg || "--cwd=" <= arg {
        var split := SplitOnce(arg, '=');
        DirectorySplits(arg);
        options := options + ["--workdir", split.value.1];
        index := index + 1;
      } else if "-" <= arg {
        assert options + [] == options;
        index := index + 1;
      } else {
        return Some(Exec(arg, index + 1, options));
      }
    }
    r := None;
  }

  /** The argument vector `exec_service` runs; `container` names the container of a service. */
  function Translate(args: seq<string>, container: string -> string): Option<seq<string>> {
    match ParseExec(args)
    case None => None
    case Some(e) => Some(["exec"] + e.options + [container(e.service)] + args[e.commandStart..])
  }

  // ---- the language of options ----------------------------------------

  /** The ways an option can be written in front of the service. */
  datatype Opt =
    | Flag(arg: string)
    | Separate(name: string, value: string)
    | Assigned(name: string, value: string)
    | Ignored(arg: string)

  /** The flags, and the options of the runtime they stand for. */
  function Flags(): map<string, seq<string>> {
    map[
      "-i" := ["--interactive"], "--interactive" := ["--interactive"],
      "-t" := ["--tty"], "--tty" := ["--tty"],
      "-it" := ["--interactive", "--tty"], "-ti" := ["--interactive", "--tty"]
    ]
  }

  /** The options whose value is the next argument, and their names in the runtime. */
  function LongNames(): map<string, string> {
    map[
      "-e" := "--env", "--env" := "--env", "--env-file" := "--env-file",
      "-u" := "--user", "--user" := "--user", "--uid" := "--uid", "--gid" := "--gid", "--ulimit" := "--ulimit",
      "-w" := "--workdir", "--workdir" := "--workdir", "--cwd" := "--workdir"
    ]
  }

  /** The options to which a value can be assigned, and their names in the runtime. */
  function Assignable(): map<string, string> {
    map["--env" := "--env", "--env-file" := "--env-file", "--workdir" := "--workdir", "--cwd" := "--workdir"]
  }

  predicate IsOpt(opt: Opt) {
    match opt
    case Flag(arg) => arg in Flags()
    case Separate(name, _) => name in LongNames()
    case Assigned(name, _) => name in Assignable()
    case Ignored(arg) =>
      && "-" <= arg && arg !in Flags() && arg !in LongNames()
      && forall name | name in Assignable() :: !(name + "=" <= arg)
  }

  function WrittenOpt(opt: Opt): seq<string> {
    match opt
    case Flag(arg) => [arg]
    case Separate(name, value) => [name, value]
    case Assigned(name, value) => [name + "=" + value]
    case Ignored(arg) => [arg]
  }

  /** What the option asks for, under the one name that the runtime knows it by. */
  function MeantOpt(opt: Opt): seq<string> {
    match opt
    case Flag(arg) => if arg in Flags() then Flags()[arg] else []
    case Separate(name, value) => [if name in LongNames() then LongNames()[name] else "", value]
    case Assigned(name, value) => [if name in Assignable() then Assignable()[name] else "", value]
    case Ignored(_) => []
  }

  /** The value does not repeat the option: only then is it handed on as it is. */
  predicate IsPlain(opt: Opt) {
    opt.Assigned? && IsEnvironment(opt.name) ==> !(opt.name + "=" <= opt.value)
  }

  /** What the parser makes of the option. */
  function TranslatedOpt(opt: Opt): seq<string> {
    if opt.Assigned? && IsEnvironment(opt.name) then
      [opt.name, TrimPrefix(opt.value, opt.name + "=")]
    else
      MeantOpt(opt)
  }

  predicate AreOpts(opts: seq<Opt>) {
    forall k | 0 <= k < |opts| :: IsOpt(opts[k])
  }

  predicate ArePlain(opts: seq<Opt>) {
    forall k | 0 <= k < |opts| :: IsPlain(opts[k])
  }

  function Written(opts: seq<Opt>): seq<string> {
    if opts == [] then [] else WrittenOpt(opts[0]) + Written(opts[1..])
  }

  function Meant(opts: seq<Opt>): seq<string> {
    if opts == [] then [] else MeantOpt(opts[0]) + Meant(opts[1..])
  }

  function Translated(opts: seq<Opt>): seq<string> {
    if opts == [] then [] else TranslatedOpt(opts[0]) + Translated(opts[1..])
  }

  // ---- repeated prefixes ----------------------------------------------

  lemma {:induction false} TrimPrefixShrinks(s: string, prefix: string)
    requires prefix != ""
    ensures |TrimPrefix(s, prefix)| <= |s|
    ensures TrimPrefix(s, prefix) == s <==> !(prefix <= s)
    decreases |s|
  {
    if prefix <= s {
      TrimPrefixShrinks(s[|prefix|..], prefix);
    }
  }

  lemma TranslatedOptExact(opt: Opt)
    requires IsOpt(opt)
    ensures |TranslatedOpt(opt)| == |MeantOpt(opt)|
    ensures TranslatedOpt(opt) == MeantOpt(opt) <==> IsPlain(opt)
  {
    if opt.Assigned? && IsEnvironment(opt.name) {
      TrimPrefixShrinks(opt.value, opt.name + "=");
      var meant, translated := MeantOpt(opt), TranslatedOpt(opt);
      assert meant[1] == opt.value && translated[1] == TrimPrefix(opt.value, opt.name + "=");
    }
  }

  /** The options come out as they were meant exactly if no value repeats its option. */
  lemma {:induction false} TranslatedExactly(opts: seq<Opt>)
    requires AreOpts(opts)
    ensures |Translated(opts)| == |Meant(opts)|
    ensures Translated(opts) == Meant(opts) <==> ArePlain(opts)
  {
    if opts == [] {
    } else {
      hide IsOpt, TranslatedOpt, MeantOpt, IsPlain;
      var first, rest := opts[0], opts[1..];
      TranslatedOptExact(first);
      TranslatedExactly(rest);
      SameParts(TranslatedOpt(first), MeantOpt(first), Translated(rest), Meant(rest));
      PlainStep(opts);
    }
  }

  lemma SameParts<T>(a: seq<T>, b: seq<T>, x: seq<T>, y: seq<T>)
    requires |a| == |b|
    ensures a + x == b + y <==> a == b && x == y
  {
    assert (a + x)[..|a|] == a && (a + x)[|a|..] == x;
    assert (b + y)[..|b|] == b && (b + y)[|b|..] == y;
  }

  lemma PlainStep(opts: seq<Opt>)
    requires opts != []
    ensures ArePlain(opts) <==> IsPlain(opts[0]) && ArePlain(opts[1..])
  {
    hide IsPlain;
    assert opts == [opts[0]] + opts[1..];
    assert forall k | 1 <= k < |opts| :: opts[1..][k - 1] == opts[k];
  }

  // ---- one option -----------------------------------------------------

  lemma FlagsAre(arg: string)
    ensures IsFlag(arg) <==> arg in Flags()
    ensures IsFlag(arg) ==> FlagOptions(arg) == Flags()[arg]
  {
  }

  lemma LongNamesAre(name: string)
    ensures TakesValue(name) <==> name in LongNames()
    ensures TakesValue(name) ==> OptionName(name) == LongNames()[name]
  {
  }

  lemma AssignableAre(name: string)
    ensures TakesAssignment(name) <==> name in Assignable()
    ensures TakesAssignment(name) ==>
      Assignable()[name] == if IsEnvironment(name) then name else "--workdir"
  {
  }

  lemma AssignedNameIs(arg: string)
    ensures AssignedName(arg) == None <==> forall name | name in Assignable() :: !(name + "=" <= arg)
  {
    assert "--env" + "=" == "--env=" && "--env-file" + "=" == "--env-file=";
    assert "--workdir" + "=" == "--workdir=" && "--cwd" + "=" == "--cwd=";
  }

  lemma SeparateMeans(name: string, value: string)
    requires IsOpt(Separate(name, value))
    ensures MeaningOf(name) == Valued(MeantOpt(Separate(name, value))[0])
  {
    LongNamesAre(name);
    FlagsAre(name);
    SeparateIsNoFlag(name);
    hide OptionName, TrimPrefix, IsFlag, TakesValue, LongNames, Flags;
  }

  lemma SeparateIsNoFlag(name: string)
    requires name in LongNames()
    ensures !IsFlag(name)
  {
  }

  /** An assignment is told by its name and is no other form of option. */
  lemma AssignmentIs(name: string, value: string)
    requires TakesAssignment(name)
    ensures !IsFlag(name + "=" + value) && !TakesValue(name + "=" + value)
    ensures AssignedName(name + "=" + value) == Some(name)
  {
    var arg := name + "=" + value;
    assert arg[|name|] == '=' && '=' in arg;
    assert "--env="[5] == '=' && "--env-file="[5] == '-' && "--env-file="[2] == 'e';
    assert "--workdir="[2] == 'w' && "--cwd="[2] == 'c';
    assert arg[2] == name[2] && arg[5] == (name + "=")[5];
    assert name + "=" <= arg;
  }

  lemma AssignedMeans(name: string, value: string)
    requires name in Assignable()
    ensures MeaningOf(name + "=" + value) == Given(TranslatedOpt(Assigned(name, value)))
  {
    AssignableAre(name);
    hide Assignable;
    AssignmentIs(name, value);
    AssignedTranslates(name, value);
    hide IsFlag, TakesValue, AssignedName, TakesAssignment, AssignedOptions, TranslatedOpt;
  }

  lemma AssignedTranslates(name: string, value: string)
    requires TakesAssignment(name)
    ensures AssignedOptions(name, name + "=" + value) == TranslatedOpt(Assigned(name, value))
  {
    PrefixRemoved(name + "=", value);
    AssignableAre(name);
    hide TrimPrefix, Assignable;
    assert (name + "=" + value)[|name| + 1..] == value;
  }

  lemma PrefixRemoved(prefix: string, value: string)
    requires prefix != ""
    ensures TrimPrefix(prefix + value, prefix) == TrimPrefix(value, prefix)
  {
    assert (prefix + value)[|prefix|..] == value;
  }

  lemma FlagMeans(arg: string)
    requires IsOpt(Flag(arg))
    ensures MeaningOf(arg) == Given(MeantOpt(Flag(arg)))
  {
    FlagsAre(arg);
    hide TrimPrefix, OptionName, IsFlag, FlagOptions, Flags;
  }

  lemma IgnoredMeans(arg: string)
    requires IsOpt(Ignored(arg))
    ensures MeaningOf(arg) == Given([])
  {
    FlagsAre(arg);
    LongNamesAre(arg);
    AssignedNameIs(arg);
    hide TrimPrefix, OptionName, IsFlag, Flags, TakesValue, LongNames, AssignedName, Assignable;
  }

  /** The parser passes over an option, and has its translation. */
  lemma OptParses(args: seq<string>, index: nat, options: seq<string>, opt: Opt)
    requires IsOpt(opt) && index + |WrittenOpt(opt)| <= |args|
    requires args[index..index + |WrittenOpt(opt)|] == WrittenOpt(opt)
    ensures ParseFrom(args, index, options)
         == ParseFrom(args, index + |WrittenOpt(opt)|, options + TranslatedOpt(opt))
  {
    hide IsFlag, TakesValue, TakesAssignment, AssignedName, FlagOptions, AssignedOptions, TrimPrefix, OptionName;
    hide Flags, LongNames, Assignable;
    var written := WrittenOpt(opt);
    assert args[index] == written[0];
    match opt
    case Flag(arg) =>
      FlagMeans(arg);
    case Separate(name, value) =>
      SeparateMeans(name, value);
      assert args[index + 1] == written[1];
    case Assigned(name, value) =>
      AssignedMeans(name, value);
    case Ignored(arg) =>
      IgnoredMeans(arg);
  }

  // ---- whole argument vectors -----------------------------------------

  lemma {:induction false} OptsParse(args: seq<string>, index: nat, options: seq<string>, opts: seq<Opt>)
    requires AreOpts(opts) && index + |Written(opts)| <= |args|
    requires args[index..index + |Written(opts)|] == Written(opts)
    ensures ParseFrom(args, index, options)
         == ParseFrom(args, index + |Written(opts)|, options + Translated(opts))
    decreases |opts|
  {
    hide ParseFrom, WrittenOpt, TranslatedOpt, IsOpt;
    if opts == [] {
      assert options + [] == options;
    } else {
      var first, rest := opts[0], opts[1..];
      var n, m := |WrittenOpt(first)|, |Written(opts)|;
      var text := args[index..index + m];
      assert args[index..index + n] == text[..n] == WrittenOpt(first);
      OptParses(args, index, options, first);
      assert args[index + n..index + m] == text[n..] == Written(rest);
      OptsParse(args, index + n, options + TranslatedOpt(first), rest);
      assert options + TranslatedOpt(first) + Translated(rest) == options + Translated(opts);
    }
  }

  lemma ServiceMeans(service: string)
    requires !("-" <= service)
    ensures MeaningOf(service) == Service
  {
    hide TrimPrefix, OptionName;
    assert service != "" ==> service[0] != '-';
    assert "-i"[0] == "-t"[0] == "-e"[0] == "-u"[0] == "-w"[0] == '-';
  }

  /** The command line with these parts. */
  function CommandLine(subcommand: string, opts: seq<Opt>, service: string, command: seq<string>): seq<string> {
    [subcommand] + Written(opts) + [service] + command
  }

  /**
   Whatever the options and the command: the parser finds the service, leaves
   the command alone, and translates the options in order, as they were
   meant exactly if no assigned environment value repeats its own option.
   */
  lemma CommandLineParses(subcommand: string, opts: seq<Opt>, service: string, command: seq<string>)
    requires AreOpts(opts) && !("-" <= service)
    ensures
      var args := CommandLine(subcommand, opts, service, command);
      var start := |args| - |command|;
      && ParseExec(args) == Some(Exec(service, start, Translated(opts)))
      && args[start..] == command
    ensures Translated(opts) == Meant(opts) <==> ArePlain(opts)
  {
    var args := CommandLine(subcommand, opts, service, command);
    var n := |Written(opts)|;
    hide Written, Translated;
    assert args[1..1 + n] == Written(opts);
    OptsParse(args, 1, [], opts);
    assert args[1 + n] == service && args[n + 2..] == command;
    assert [] + Translated(opts) == Translated(opts);
    ServiceMeans(service);
    TranslatedExactly(opts);
  }

  /** The option that an argument, with the one behind it, stands for. */
  function OptOf(arg: string, next: string): Opt {
    if IsFlag(arg) then Flag(arg)
    else if TakesValue(arg) then Separate(arg, next)
    else
      match AssignedName(arg)
      case Some(name) => Assigned(name, arg[|name| + 1..])
      case None => Ignored(arg)
  }

  lemma OptOfIsOpt(arg: string, next: string)
    requires MeaningOf(arg) != Service
    ensures IsOpt(OptOf(arg, next))
    ensures WrittenOpt(OptOf(arg, next)) == if MeaningOf(arg).Valued? then [arg, next] else [arg]
  {
    FlagsAre(arg);
    LongNamesAre(arg);
    AssignedNameIs(arg);
    hide TrimPrefix, OptionName, IsFlag, TakesValue, AssignedName, TakesAssignment, Flags, LongNames, Assignable;
    match AssignedName(arg)
    case Some(name) =>
      AssignableAre(name);
      assert arg == name + "=" + arg[|name| + 1..];
    case None =>
  }

  lemma OptAt(args: seq<string>, index: nat, options: seq<string>) returns (opt: Opt)
    requires index < |args| && ParseFrom(args, index, options).Some? && MeaningOf(args[index]) != Service
    ensures IsOpt(opt) && WrittenOpt(opt) != [] && index + |WrittenOpt(opt)| <= |args|
    ensures args[index..] == WrittenOpt(opt) + args[index + |WrittenOpt(opt)|..]
    ensures ParseFrom(args, index, options) == ParseFrom(args, index + |WrittenOpt(opt)|, options + TranslatedOpt(opt))
  {
    var next := if index + 1 < |args| then args[index + 1] else "";
    opt := OptOf(args[index], next);
    OptOfIsOpt(args[index], next);
    hide MeaningOf, OptOf, WrittenOpt, TranslatedOpt, IsOpt;
    assert args[index..] == WrittenOpt(opt) + args[index + |WrittenOpt(opt)|..];
    OptParses(args, index, options, opt);
    hide ParseFrom;
  }

  /** Every argument vector that parses is a command line: the parser accepts nothing else. */
  lemma {:induction false} ParsedFrom(args: seq<string>, index: nat, options: seq<string>)
    returns (opts: seq<Opt>, command: seq<string>)
    requires index <= |args| && ParseFrom(args, index, options).Some?
    ensures AreOpts(opts)
    ensures !("-" <= ParseFrom(args, index, options).value.service)
    ensures args[index..] == Written(opts) + ([ParseFrom(args, index, options).value.service] + command)
    decreases |args| - index
  {
    hide WrittenOpt, TranslatedOpt, IsOpt;
    if MeaningOf(args[index]) == Service {
      opts, command := [], args[index + 1..];
      ServiceStands(args, index, options);
    } else {
      hide MeaningOf;
      var opt := OptAt(args, index, options);
      hide ParseFrom;
      var rest;
      rest, command := ParsedFrom(args, index + |WrittenOpt(opt)|, options + TranslatedOpt(opt));
      opts := [opt] + rest;
      hide Written;
      OptWritten(opt, rest);
      var tail := [ParseFrom(args, index, options).value.service] + command;
      hide *;
      Regroup(WrittenOpt(opt), Written(rest), tail);
    }
  }

  lemma ServiceStands(args: seq<string>, index: nat, options: seq<string>)
    requires index < |args| && MeaningOf(args[index]) == Service
    ensures ParseFrom(args, index, options) == Some(Exec(args[index], index + 1, options)) && !("-" <= args[index])
    ensures args[index..] == Written([]) + ([args[index]] + args[index + 1..])
  {
    hide IsFlag, TakesValue, AssignedName;
  }

  lemma OptWritten(opt: Opt, rest: seq<Opt>)
    ensures Written([opt] + rest) == WrittenOpt(opt) + Written(rest)
  {
    hide WrittenOpt;
    assert ([opt] + rest)[1..] == rest;
  }

  lemma Regroup(a: seq<string>, b: seq<string>, c: seq<string>)
    ensures a + (b + c) == (a + b) + c
  {
  }

  /** What a successful parse says about the arguments: the exact converse of `CommandLineParses`. */
  lemma ParsedIsCommandLine(args: seq<string>) returns (opts: seq<Opt>, command: seq<string>)
    requires ParseExec(args).Some?
    ensures AreOpts(opts) && !("-" <= ParseExec(args).value.service)
    ensures args == CommandLine(args[0], opts, ParseExec(args).value.service, command)
  {
    opts, command := ParsedFrom(args, 1, []);
    hide ParseFrom, Written;
    var service := ParseExec(args).value.service;
    assert args == [args[0]] + args[1..];
    hide *;
    Regroup([args[0]], Written(opts), [service] + command);
    Regroup([args[0]] + Written(opts), [service], command);
    CommandLineIs(args[0], opts, service, command);
  }

  lemma CommandLineIs(subcommand: string, opts: seq<Opt>, service: string, command: seq<string>)
    ensures CommandLine(subcommand, opts, service, command) == [subcommand] + Written(opts) + [service] + command
  {
    hide Written;
  }

  // ---- the builders ---------------------------------------------------

  predicate HasWhite(s: string) {
    exists k | 0 <= k < |s| :: IsWhite(s[k])
  }

  /** A single argument with white space in it is a whole shell line. */
  function ShellCommand(command: seq<string>): seq<string> {
    if |command| == 1 && HasWhite(command[0]) then ["sh", "-c", command[0]] else command
  }

  /** One word with white space is run by a shell; everything else is run as it is. */
  lemma ShellLines(command: seq<string>, word: string)
    ensures |command| != 1 ==> ShellCommand(command) == command
    ensures (forall c | c in word :: !IsWhite(c)) ==> ShellCommand([word]) == [word]
    ensures (exists c :: c in word && IsWhite(c)) ==> ShellCommand([word]) == ["sh", "-c", word]
  {
    if c :| c in word && IsWhite(c) {
      var k :| 0 <= k < |word| && word[k] == c;
      assert IsWhite(word[k]);
    }
  }

  function RunOpts(workdir: Option<string>): seq<Opt> {
    [Flag("-i")] + match workdir case None => [] case Some(dir) => [Separate("-w", dir)]
  }

  /** `build_exec_args` */
  method BuildExecArgs(service: string, workdir: Option<string>, command: seq<string>) returns (args: seq<string>)
    ensures args == CommandLine("exec", RunOpts(workdir), service, ShellCommand(command))
  {
    args := ["exec", "-i"];
    if workdir.Some? {
      args := args + ["-w"];
      args := args + [workdir.value];
    }
    assert args == ["exec"] + Written(RunOpts(workdir)) by {
      RunOptsWritten(workdir);
    }
    hide Written;
    args := args + [service];
    if |command| == 1 && HasWhite(command[0]) {
      args := args + ["sh", "-c", command[0]];
    } else {
      args := args + command;
    }
  }

  lemma RunOptsWritten(workdir: Option<string>)
    ensures AreOpts(RunOpts(workdir)) && ArePlain(RunOpts(workdir))
    ensures Written(RunOpts(workdir)) == ["-i"] + match workdir case None => [] case Some(dir) => ["-w", dir]
    ensures Meant(RunOpts(workdir)) == ["--interactive"] + match workdir case None => [] case Some(dir) => ["--workdir", dir]
  {
    match workdir
    case None =>
      assert Written([Flag("-i")]) == ["-i"] && Meant([Flag("-i")]) == ["--interactive"];
    case Some(dir) =>
      assert Written([Separate("-w", dir)]) == ["-w", dir];
      assert Meant([Separate("-w", dir)]) == [LongNames()["-w"], dir] == ["--workdir", dir];
      WrittenConcat([Flag("-i")], [Separate("-w", dir)]);
  }

  /** A command line with plain options is handed on as it was meant. */
  lemma PlainTranslates(opts: seq<Opt>, service: string, command: seq<string>, container: string -> string)
    requires AreOpts(opts) && ArePlain(opts) && !("-" <= service)
    ensures Translate(CommandLine("exec", opts, service, command), container)
         == Some(["exec"] + Meant(opts) + [container(service)] + command)
  {
    hide ParseExec, CommandLine, Meant, Translated, ArePlain;
    CommandLineParses("exec", opts, service, command);
  }

  /** The command of `dip exec` reaches the container as it was given, in the directory that was given. */
  lemma BuiltCommandTranslates(
      service: string, workdir: Option<string>, command: seq<string>, container: string -> string)
    requires !("-" <= service)
    ensures Translate(CommandLine("exec", RunOpts(workdir), service, ShellCommand(command)), container) == Some(
      ["exec", "--interactive"] + (match workdir case None => [] case Some(dir) => ["--workdir", dir])
      + [container(service)] + ShellCommand(command))
  {
    hide *;
    RunOptsWritten(workdir);
    PlainTranslates(RunOpts(workdir), service, ShellCommand(command), container);
    var directory := match workdir case None => [] case Some(dir) => ["--workdir", dir];
    assert ["exec"] + (["--interactive"] + directory) == ["exec", "--interactive"] + directory;
  }

  function PairText(pair: (string, string)): string {
    pair.0 + "=" + pair.1
  }

  function PairOpts(env: seq<(string, string)>): seq<Opt> {
    seq(|env|, k requires 0 <= k < |env| => Separate("-e", PairText(env[k])))
  }

  function ConsoleOpts(env: seq<(string, string)>): seq<Opt> {
    PairOpts(env) + [Flag("-it")]
  }

  /** The arguments of the database console in `run_console`. */
  method BuildConsoleArgs(env: seq<(string, string)>, service: string, command: seq<string>)
    returns (args: seq<string>)
    ensures args == CommandLine("exec", ConsoleOpts(env), service, command)
  {
    args := ["exec"];
    hide Written, PairOpts;
    for k := 0 to |env|
      invariant args + Written(PairOpts(env[k..])) == ["exec"] + Written(PairOpts(env))
    {
      assert env[k..][1..] == env[k + 1..];
      PairOptsStep(env[k..]);
      args := args + ["-e"];
      args := args + [PairText(env[k])];
    }
    ConsoleWritten(env, env[|env|..]);
    assert args == ["exec"] + Written(PairOpts(env));
    args := args + ["-it"];
    args := args + [service];
    args := args + command;
  }

  lemma ConsoleWritten(env: seq<(string, string)>, rest: seq<(string, string)>)
    requires rest == []
    ensures Written(PairOpts(rest)) == []
    ensures Written(ConsoleOpts(env)) == Written(PairOpts(env)) + ["-it"]
  {
    assert Written([Flag("-it")]) == ["-it"];
    WrittenConcat(PairOpts(env), [Flag("-it")]);
  }

  lemma PairOptsStep(env: seq<(string, string)>)
    requires env != []
    ensures PairOpts(env) == [Separate("-e", PairText(env[0]))] + PairOpts(env[1..])
    ensures Written(PairOpts(env)) == ["-e", PairText(env[0])] + Written(PairOpts(env[1..]))
  {
    assert PairOpts(env)[1..] == PairOpts(env[1..]);
  }

  lemma {:induction false} WrittenConcat(a: seq<Opt>, b: seq<Opt>)
    ensures Written(a + b) == Written(a) + Written(b)
    ensures Meant(a + b) == Meant(a) + Meant(b)
  {
    hide WrittenOpt, MeantOpt;
    if a == [] {
      assert a + b == b;
    } else {
      assert (a + b)[1..] == a[1..] + b;
      WrittenConcat(a[1..], b);
    }
  }

  /** What the runtime receives for the pairs. */
  function PairsMeant(env: seq<(string, string)>): seq<string> {
    if env == [] then [] else ["--env", env[0].0 + "=" + env[0].1] + PairsMeant(env[1..])
  }

  lemma {:induction false} PairsAreMeant(env: seq<(string, string)>)
    ensures Meant(PairOpts(env)) == PairsMeant(env)
    decreases |env|
  {
    if env == [] {
    } else {
      PairOptsStep(env);
      PairsAreMeant(env[1..]);
    }
  }

  lemma ConsoleOptsMean(env: seq<(string, string)>)
    ensures AreOpts(ConsoleOpts(env)) && ArePlain(ConsoleOpts(env))
    ensures Meant(ConsoleOpts(env)) == PairsMeant(env) + ["--interactive", "--tty"]
  {
    var flag := Flag("-it");
    assert Meant([flag]) == MeantOpt(flag) == ["--interactive", "--tty"];
    hide Meant, MeantOpt;
    PairsAreMeant(env);
    WrittenConcat(PairOpts(env), [flag]);
  }

  /** The console gets every pair, in order and unchanged, both streams, and its own command. */
  lemma BuiltConsoleTranslates(
      env: seq<(string, string)>, service: string, command: seq<string>, container: string -> string)
    requires !("-" <= service)
    ensures Translate(CommandLine("exec", ConsoleOpts(env), service, command), container) == Some(
      ["exec"] + PairsMeant(env) + ["--interactive", "--tty"] + [container(service)] + command)
  {
    hide *;
    ConsoleOptsMean(env);
    PlainTranslates(ConsoleOpts(env), service, command, container);
    assert ["exec"] + (PairsMeant(env) + ["--interactive", "--tty"]) == ["exec"] + PairsMeant(env) + ["--interactive", "--tty"];
  }

  /** An assigned value that repeats its option does not come out as it was written. */
  lemma RepeatedPrefix(service: string)
    requires !("-" <= service)
    ensures
      var args := CommandLine("exec", [Assigned("--env", "--env=X=1")], service, []);
      && ParseExec(args).Some?
      && ParseExec(args).value.options != ["--env", "--env=X=1"]
  {
    var opts := [Assigned("--env", "--env=X=1")];
    CommandLineParses("exec", opts, service, []);
    assert !IsPlain(opts[0]);
    assert Meant(opts) == ["--env", "--env=X=1"];
  }
}
