/**
 The three readings of `go build` arguments: parsing them (internal/cli/build_arguments.go), validating
 them against the recorded analysis (internal/compiler/build_arguments.go), and finding where the
 packages start (internal/compiler/build_paths.go).
 */
module BuildArguments {
  import opened Orders
  import opened Policies
  import opened Strings

  // ---------------------------------------------------------------------------------- flags

  datatype Flag =
    | Output | Parallel | Tags | Mod | ModFile
    | Race | Msan | Asan | TrimPath | BuildVcs | RebuildAll | Verbose | Trace
    | Unknown(name: string)

  function Name(flag: Flag): string
  {
    match flag
    case Output => "-o"
    case Parallel => "-p"
    case Tags => "-tags"
    case Mod => "-mod"
    case ModFile => "-modfile"
    case Race => "-race"
    case Msan => "-msan"
    case Asan => "-asan"
    case TrimPath => "-trimpath"
    case BuildVcs => "-buildvcs"
    case RebuildAll => "-a"
    case Verbose => "-v"
    case Trace => "-x"
    case Unknown(name) => name
  }

  function FlagOf(name: string): Flag
  {
    if name == "-o" then Output
    else if name == "-p" then Parallel
    else if name == "-tags" then Tags
    else if name == "-mod" then Mod
    else if name == "-modfile" then ModFile
    else if name == "-race" then Race
    else if name == "-msan" then Msan
    else if name == "-asan" then Asan
    else if name == "-trimpath" then TrimPath
    else if name == "-buildvcs" then BuildVcs
    else if name == "-a" then RebuildAll
    else if name == "-v" then Verbose
    else if name == "-x" then Trace
    else Unknown(name)
  }

  /** The spelling of a known flag: one dash, no value separator, and read back as the flag. */
  lemma FlagOfName(flag: Flag)
    requires !flag.Unknown?
    ensures FlagOf(Name(flag)) == flag
    ensures |Name(flag)| > 1 && Name(flag)[0] == '-' && Name(flag)[1] != '-' && '=' !in Name(flag)
  {
  }

  predicate TakesValue(flag: Flag)
  {
    flag.Output? || flag.Parallel? || flag.Tags? || flag.Mod? || flag.ModFile?
  }

  predicate IsBoolean(flag: Flag)
  {
    !TakesValue(flag) && !flag.Unknown?
  }

  function Token(flag: Flag, value: string): string
  {
    Name(flag) + "=" + value
  }

  predicate IsFlagLike(argument: string)
  {
    HasPrefix(argument, "-") && argument != "-"
  }

  /** `splitBuildFlag`. */
  function SplitBuildFlag(argument: string): CutResult
  {
    var cut := Cut(argument, "=");
    if HasPrefix(cut.before, "--") then cut.(before := cut.before[1..]) else cut
  }

  lemma CutToken(name: string, value: string)
    requires '=' !in name
    ensures Cut(name + "=" + value, "=") == CutResult(name, value, true)
  {
    hide Index;
    var s := name + "=" + value;
    FirstCharacter(s, '=');
    assert s[|name|] == '=';
    assert forall k :: 0 <= k < |name| ==> s[k] == name[k];
    assert Index(s, "=") == |name|;
    assert s[..|name|] == name && s[|name| + 1..] == value;
  }

  lemma SplitToken(flag: Flag, value: string)
    requires !flag.Unknown?
    ensures SplitBuildFlag(Token(flag, value)) == CutResult(Name(flag), value, true)
    ensures Cut(Token(flag, value), "=") == CutResult(Name(flag), value, true)
    ensures IsFlagLike(Token(flag, value))
  {
    hide Name, Cut;
    FlagOfName(flag);
    CutToken(Name(flag), value);
  }

  // -------------------------------------------------------------------------------- parsing

  datatype Arguments = Arguments(
    output: string, analysisFlags: seq<string>, goArgs: seq<string>, packages: seq<string>)

  const NO_ARGUMENTS := Arguments("", [], [], [])

  datatype ParseOutcome =
    | Accepted(arguments: Arguments) | ValueMissing | BadModuleMode | BadModuleFile | BadBoolean | Unsupported

  datatype FlagValue = FlagValue(value: string, remaining: seq<string>) | NoValue

  /** `buildFlagValue`: the value after `=` or the next argument; only tags may be empty. */
  function BuildFlagValue(flag: Flag, value: string, hasValue: bool, remaining: seq<string>): (r: FlagValue)
    ensures r.FlagValue? ==> |r.remaining| <= |remaining|
  {
    if !hasValue && |remaining| == 0 then NoValue
    else
      var taken := if hasValue then value else remaining[0];
      var rest := if hasValue then remaining else remaining[1..];
      if taken == "" && !flag.Tags? then NoValue else FlagValue(taken, rest)
  }

  function AppendValueBuildFlag(arguments: Arguments, flag: Flag, value: string): ParseOutcome
  {
    match flag
    case Output => Accepted(arguments.(output := value))
    case Parallel => Accepted(arguments.(goArgs := arguments.goArgs + [Token(flag, value)]))
    case Mod =>
      if value != "mod" && value != "readonly" && value != "vendor" then BadModuleMode
      else Accepted(arguments.(analysisFlags := arguments.analysisFlags + [Token(flag, value)]))
    case ModFile =>
      if !HasSuffix(value, ".mod") then BadModuleFile
      else Accepted(arguments.(analysisFlags := arguments.analysisFlags + [Token(flag, value)]))
    case _ => Accepted(arguments.(analysisFlags := arguments.analysisFlags + [Token(flag, value)]))
  }

  predicate IsBooleanValue(flag: Flag, value: string)
  {
    value == "true" || value == "false" || (flag.BuildVcs? && value == "auto")
  }

  predicate IsGoFlag(flag: Flag)
  {
    flag.Parallel? || flag.RebuildAll? || flag.Verbose? || flag.Trace?
  }

  function AppendBooleanBuildFlag(arguments: Arguments, flag: Flag, value: string, hasValue: bool): ParseOutcome
  {
    var given := if hasValue then value else "true";
    if !IsBooleanValue(flag, given) then BadBoolean
    else if IsGoFlag(flag) then Accepted(arguments.(goArgs := arguments.goArgs + [Token(flag, given)]))
    else Accepted(arguments.(analysisFlags := arguments.analysisFlags + [Token(flag, given)]))
  }

  /** The packages are all arguments from the first one that is not a flag. */
  function WithPackages(arguments: Arguments, packages: seq<string>): Arguments
  {
    arguments.(packages := packages, goArgs := arguments.goArgs + packages)
  }

  datatype Step = Next(arguments: Arguments, remaining: seq<string>) | Stop(outcome: ParseOutcome)

  /** What one flag, and possibly the argument after it, adds. */
  function ParseFlag(arguments: Arguments, remaining: seq<string>): (step: Step)
    requires |remaining| > 0
    ensures if step.Next? then |step.remaining| < |remaining| else !step.outcome.Accepted?
  {
    var cut := SplitBuildFlag(remaining[0]);
    var flag := FlagOf(cut.before);
    if TakesValue(flag) then
      match BuildFlagValue(flag, cut.after, cut.found, remaining[1..])
      case NoValue => Stop(ValueMissing)
      case FlagValue(value, rest) =>
        var appended := AppendValueBuildFlag(arguments, flag, value);
        if appended.Accepted? then Next(appended.arguments, rest) else Stop(appended)
    else if IsBoolean(flag) then
      var appended := AppendBooleanBuildFlag(arguments, flag, cut.after, cut.found);
      if appended.Accepted? then Next(appended.arguments, remaining[1..]) else Stop(appended)
    else Stop(Unsupported)
  }

  function ParseFrom(arguments: Arguments, remaining: seq<string>): ParseOutcome
    decreases |remaining|
  {
    if |remaining| == 0 then Accepted(arguments)
    else if !IsFlagLike(remaining[0]) then Accepted(WithPackages(arguments, remaining))
    else
      match ParseFlag(arguments, remaining)
      case Stop(outcome) => outcome
      case Next(next, rest) => ParseFrom(next, rest)
  }

  function Parse(args: seq<string>): ParseOutcome
  {
    ParseFrom(NO_ARGUMENTS, args)
  }

  /** `parseBuildArguments`. */
  method ParseBuildArguments(args: seq<string>) returns (r: ParseOutcome)
    ensures r == Parse(args)
  {
    hide ParseFlag, IsFlagLike;
    var result, remaining := NO_ARGUMENTS, args;
    while |remaining| > 0
      invariant ParseFrom(result, remaining) == Parse(args)
      decreases |remaining|
    {
      if !IsFlagLike(remaining[0]) {
        return Accepted(WithPackages(result, remaining));
      }
      var step := ParseFlag(result, remaining);
      if step.Stop? {
        return step.outcome;
      }
      result, remaining := step.arguments, step.remaining;
    }
    return Accepted(result);
  }

  // ------------------------------------------------------------------------ what is accepted

  /** A flag with a value that the parser keeps. */
  predicate IsKept(flag: Flag, value: string)
  {
    match flag
    case Parallel => value != ""
    case Tags => true
    case Mod => value == "mod" || value == "readonly" || value == "vendor"
    case ModFile => HasSuffix(value, ".mod")
    case Output => false
    case Unknown(_) => false
    case _ => IsBooleanValue(flag, value)
  }

  ghost predicate IsGoToken(token: string)
  {
    exists flag, value :: IsGoFlag(flag) && IsKept(flag, value) && token == Token(flag, value)
  }

  ghost predicate IsAnalysisToken(token: string)
  {
    exists flag, value :: !IsGoFlag(flag) && IsKept(flag, value) && token == Token(flag, value)
  }

  ghost predicate AllGo(tokens: seq<string>)
  {
    forall i :: 0 <= i < |tokens| ==> IsGoToken(tokens[i])
  }

  ghost predicate AllAnalysis(tokens: seq<string>)
  {
    forall i :: 0 <= i < |tokens| ==> IsAnalysisToken(tokens[i])
  }

  predicate StartsPackages(packages: seq<string>)
  {
    |packages| > 0 ==> !IsFlagLike(packages[0])
  }

  function GoFlags(arguments: Arguments): seq<string>
    requires |arguments.packages| <= |arguments.goArgs|
  {
    arguments.goArgs[..|arguments.goArgs| - |arguments.packages|]
  }

  /** Canonical flags for the analysis and for `go build`, and the packages after the latter. */
  ghost predicate IsNormal(arguments: Arguments)
  {
    && |arguments.packages| <= |arguments.goArgs|
    && arguments.goArgs == GoFlags(arguments) + arguments.packages
    && AllGo(GoFlags(arguments)) && AllAnalysis(arguments.analysisFlags) && StartsPackages(arguments.packages)
  }

  lemma FlagStaysNormal(arguments: Arguments, remaining: seq<string>)
    requires |remaining| > 0 && IsFlagLike(remaining[0])
    requires AllGo(arguments.goArgs) && AllAnalysis(arguments.analysisFlags) && arguments.packages == []
    ensures var step := ParseFlag(arguments, remaining);
            step.Next? ==>
              AllGo(step.arguments.goArgs) && AllAnalysis(step.arguments.analysisFlags) && step.arguments.packages == []
  {
    hide SplitBuildFlag, FlagOf, Token, IsFlagLike, HasSuffix;
  }

  lemma {:induction false} ParseIsNormal(arguments: Arguments, remaining: seq<string>)
    requires AllGo(arguments.goArgs) && AllAnalysis(arguments.analysisFlags) && arguments.packages == []
    ensures ParseFrom(arguments, remaining).Accepted? ==> IsNormal(ParseFrom(arguments, remaining).arguments)
    decreases |remaining|
  {
    hide ParseFlag, IsFlagLike, IsGoToken, IsAnalysisToken;
    if |remaining| == 0 {
      assert arguments.goArgs + [] == arguments.goArgs;
    } else if !IsFlagLike(remaining[0]) {
      var r := WithPackages(arguments, remaining);
      assert r.goArgs[..|arguments.goArgs|] == arguments.goArgs;
    } else {
      FlagStaysNormal(arguments, remaining);
      var step := ParseFlag(arguments, remaining);
      if step.Next? {
        ParseIsNormal(step.arguments, step.remaining);
      }
    }
  }

  // ------------------------------------------------------------------------ parsing it again

  function OutputTokens(output: string): seq<string>
  {
    if output == "" then [] else [Token(Output, output)]
  }

  /** The parsed arguments, written out. */
  function Written(arguments: Arguments): seq<string>
  {
    OutputTokens(arguments.output) + arguments.analysisFlags + arguments.goArgs
  }

  lemma ParseToken(arguments: Arguments, flag: Flag, value: string, rest: seq<string>)
    requires IsKept(flag, value)
    ensures ParseFrom(arguments, [Token(flag, value)] + rest) ==
            ParseFrom(if IsGoFlag(flag) then arguments.(goArgs := arguments.goArgs + [Token(flag, value)])
                      else arguments.(analysisFlags := arguments.analysisFlags + [Token(flag, value)]), rest)
  {
    hide SplitBuildFlag, FlagOf, Token, IsFlagLike, Name, Cut;
    SplitToken(flag, value);
    FlagOfName(flag);
    var remaining := [Token(flag, value)] + rest;
    assert remaining[1..] == rest;
  }

  lemma ParseOutput(arguments: Arguments, value: string, rest: seq<string>)
    requires value != ""
    ensures ParseFrom(arguments, [Token(Output, value)] + rest) == ParseFrom(arguments.(output := value), rest)
  {
    hide SplitBuildFlag, FlagOf, Token, IsFlagLike, HasSuffix, Name, Cut;
    SplitToken(Output, value);
    FlagOfName(Output);
    var remaining := [Token(Output, value)] + rest;
    assert remaining[1..] == rest;
  }

  lemma {:induction false} ParseAnalysisTokens(arguments: Arguments, tokens: seq<string>, rest: seq<string>)
    requires AllAnalysis(tokens)
    ensures ParseFrom(arguments, tokens + rest) ==
            ParseFrom(arguments.(analysisFlags := arguments.analysisFlags + tokens), rest)
    decreases |tokens|
  {
    hide Token, IsKept, ParseFrom;
    if |tokens| == 0 {
      assert tokens + rest == rest && arguments.analysisFlags + tokens == arguments.analysisFlags;
    } else {
      assert IsAnalysisToken(tokens[0]);
      var flag, value :| !IsGoFlag(flag) && IsKept(flag, value) && tokens[0] == Token(flag, value);
      assert tokens + rest == [tokens[0]] + (tokens[1..] + rest);
      ParseToken(arguments, flag, value, tokens[1..] + rest);
      var next := arguments.(analysisFlags := arguments.analysisFlags + [tokens[0]]);
      ParseAnalysisTokens(next, tokens[1..], rest);
      assert next.analysisFlags + tokens[1..] == arguments.analysisFlags + tokens;
    }
  }

  lemma {:induction false} ParseGoTokens(arguments: Arguments, tokens: seq<string>, rest: seq<string>)
    requires AllGo(tokens)
    ensures ParseFrom(arguments, tokens + rest) == ParseFrom(arguments.(goArgs := arguments.goArgs + tokens), rest)
    decreases |tokens|
  {
    hide Token, IsKept, ParseFrom;
    if |tokens| == 0 {
      assert tokens + rest == rest && arguments.goArgs + tokens == arguments.goArgs;
    } else {
      assert IsGoToken(tokens[0]);
      var flag, value :| IsGoFlag(flag) && IsKept(flag, value) && tokens[0] == Token(flag, value);
      assert tokens + rest == [tokens[0]] + (tokens[1..] + rest);
      ParseToken(arguments, flag, value, tokens[1..] + rest);
      var next := arguments.(goArgs := arguments.goArgs + [tokens[0]]);
      ParseGoTokens(next, tokens[1..], rest);
      assert next.goArgs + tokens[1..] == arguments.goArgs + tokens;
    }
  }

  /** Writing accepted arguments out and parsing them again gives the same arguments. */
  lemma ParseAfterWriting(args: seq<string>)
    requires Parse(args).Accepted?
    ensures Parse(Written(Parse(args).arguments)) == Parse(args)
  {
    hide ParseFlag, IsFlagLike, IsGoToken, IsAnalysisToken, Token;
    var r := Parse(args).arguments;
    ParseIsNormal(NO_ARGUMENTS, args);
    var a := NO_ARGUMENTS.(output := r.output);
    var b := a.(analysisFlags := r.analysisFlags);
    var c := b.(goArgs := GoFlags(r));
    assert Written(r) == OutputTokens(r.output) + (r.analysisFlags + (GoFlags(r) + r.packages));
    if r.output != "" {
      ParseOutput(NO_ARGUMENTS, r.output, r.analysisFlags + (GoFlags(r) + r.packages));
    } else {
      assert Written(r) == r.analysisFlags + (GoFlags(r) + r.packages);
    }
    ParseAnalysisTokens(a, r.analysisFlags, GoFlags(r) + r.packages);
    assert [] + r.analysisFlags == r.analysisFlags;
    ParseGoTokens(b, GoFlags(r), r.packages);
    assert [] + GoFlags(r) == GoFlags(r);
    assert ParseFrom(c, r.packages) == Accepted(r) by {
      assert |r.packages| == 0 ==> GoFlags(r) == r.goArgs;
    }
  }

  // ----------------------------------------------------------------------------- validation

  /** The recorded build; `moduleMode`, tags and flags as the analysis resolved them. */
  datatype BuildEnvironment = BuildEnvironment(moduleMode: string, buildTags: seq<string>, semanticFlags: seq<string>)

  datatype Verdict =
    | Valid | FlagMismatch | ValueRequired | TagsMismatch | ModeMismatch | InvalidBoolean | UnsupportedOverride

  const DEFAULT_SEMANTICS :=
    map[Race := "false", Msan := "false", Asan := "false", TrimPath := "false", BuildVcs := "auto"]

  /** `semanticBuildFlags`: the recorded values over the defaults; a later record wins. */
  function SemanticBuildFlags(flags: seq<string>): map<Flag, string>
  {
    if |flags| == 0 then DEFAULT_SEMANTICS
    else
      var cut := Cut(flags[|flags| - 1], "=");
      SemanticBuildFlags(flags[..|flags| - 1])[FlagOf(cut.before) := cut.after]
  }

  function Fields(value: string, current: string): seq<string>
  {
    if |value| == 0 then if current == "" then [] else [current]
    else if value[0] == ',' || IsSpace(value[0]) then
      (if current == "" then [] else [current]) + Fields(value[1..], "")
    else Fields(value[1..], current + [value[0]])
  }

  /** `validateBuildFlag`. */
  function ValidateBuildFlag(flag: Flag, value: string, hasValue: bool, build: BuildEnvironment): Verdict
  {
    match flag
    case Output => Valid
    case Parallel => Valid
    case Tags => if CanonicalSet(Fields(value, "")) == CanonicalSet(build.buildTags) then Valid else TagsMismatch
    case Mod => if value == build.moduleMode then Valid else ModeMismatch
    case RebuildAll => if hasValue && value != "true" && value != "false" then InvalidBoolean else Valid
    case Verbose => if hasValue && value != "true" && value != "false" then InvalidBoolean else Valid
    case Trace => if hasValue && value != "true" && value != "false" then InvalidBoolean else Valid
    case _ => UnsupportedOverride
  }

  /** `buildArgumentValue`: unlike the parser, it knows no value for `-modfile`. */
  function BuildArgumentValue(flag: Flag, value: string, hasValue: bool, remaining: seq<string>): (r: FlagValue)
    ensures r.FlagValue? ==> |r.remaining| <= |remaining|
  {
    if flag.Output? || flag.Parallel? || flag.Tags? || flag.Mod? then
      BuildFlagValue(flag, value, hasValue, remaining)
    else FlagValue(value, remaining)
  }

  function ValidateFrom(args: seq<string>, semantic: map<Flag, string>, build: BuildEnvironment): Verdict
    decreases |args|
  {
    if |args| == 0 || !IsFlagLike(args[0]) then Valid
    else
      var cut := SplitBuildFlag(args[0]);
      var flag := FlagOf(cut.before);
      if flag in semantic then
        if (if cut.found then cut.after else "true") != semantic[flag] then FlagMismatch
        else ValidateFrom(args[1..], semantic, build)
      else
        match BuildArgumentValue(flag, cut.after, cut.found, args[1..])
        case NoValue => ValueRequired
        case FlagValue(value, rest) =>
          var verdict := ValidateBuildFlag(flag, value, cut.found, build);
          if verdict.Valid? then ValidateFrom(rest, semantic, build) else verdict
  }

  function Validate(args: seq<string>, build: BuildEnvironment): Verdict
  {
    ValidateFrom(args, SemanticBuildFlags(build.semanticFlags), build)
  }

  /** `ValidateBuildArguments`. */
  method ValidateBuildArguments(args: seq<string>, build: BuildEnvironment) returns (verdict: Verdict)
    ensures verdict == Validate(args, build)
  {
    hide IsFlagLike, SplitBuildFlag, FlagOf, ValidateBuildFlag, BuildArgumentValue;
    var semantic: map<Flag, string> := DEFAULT_SEMANTICS;
    for k := 0 to |build.semanticFlags|
      invariant semantic == SemanticBuildFlags(build.semanticFlags[..k])
    {
      assert build.semanticFlags[..k + 1][..k] == build.semanticFlags[..k];
      var cut := Cut(build.semanticFlags[k], "=");
      semantic := semantic[FlagOf(cut.before) := cut.after];
    }
    assert build.semanticFlags[..|build.semanticFlags|] == build.semanticFlags;
    var remaining := args;
    while |remaining| > 0
      invariant ValidateFrom(remaining, semantic, build) == Validate(args, build)
      decreases |remaining|
    {
      var argument := remaining[0];
      if !IsFlagLike(argument) {
        break;
      }
      var cut := SplitBuildFlag(argument);
      var flag := FlagOf(cut.before);
      if flag in semantic {
        if (if cut.found then cut.after else "true") != semantic[flag] {
          return FlagMismatch;
        }
        remaining := remaining[1..];
        continue;
      }
      var taken := BuildArgumentValue(flag, cut.after, cut.found, remaining[1..]);
      if taken.NoValue? {
        return ValueRequired;
      }
      verdict := ValidateBuildFlag(flag, taken.value, cut.found, build);
      if !verdict.Valid? {
        return;
      }
      remaining := taken.remaining;
    }
    return Valid;
  }

  /** A token agrees with the recorded flags if they do not speak of it or record this value. */
  ghost predicate Agrees(token: string, semantic: map<Flag, string>)
  {
    forall flag, value :: IsGoFlag(flag) && IsKept(flag, value) && token == Token(flag, value) && flag in semantic ==>
      value == semantic[flag]
  }

  lemma TokenIsInjective(flag: Flag, value: string, other: Flag, value': string)
    requires !flag.Unknown? && !other.Unknown? && Token(flag, value) == Token(other, value')
    ensures flag == other && value == value'
  {
    hide Token, SplitBuildFlag, Name, FlagOf;
    SplitToken(flag, value);
    SplitToken(other, value');
    FlagOfName(flag);
    FlagOfName(other);
  }

  lemma ValidateToken(flag: Flag, value: string, rest: seq<string>, semantic: map<Flag, string>,
                      build: BuildEnvironment)
    requires IsGoFlag(flag) && IsKept(flag, value)
    ensures ValidateFrom([Token(flag, value)] + rest, semantic, build) ==
            if Agrees(Token(flag, value), semantic) then ValidateFrom(rest, semantic, build) else FlagMismatch
  {
    hide SplitBuildFlag, FlagOf, Token, IsFlagLike, Name, Cut;
    SplitToken(flag, value);
    FlagOfName(flag);
    var args := [Token(flag, value)] + rest;
    assert args[1..] == rest;
    forall other, value' | IsGoFlag(other) && IsKept(other, value') && Token(flag, value) == Token(other, value')
      ensures other == flag && value' == value
    {
      TokenIsInjective(flag, value, other, value');
    }
  }

  lemma {:induction false} ValidateTokens(tokens: seq<string>, rest: seq<string>, semantic: map<Flag, string>,
                                          build: BuildEnvironment)
    requires AllGo(tokens) && (|rest| > 0 ==> !IsFlagLike(rest[0]))
    ensures ValidateFrom(tokens + rest, semantic, build) ==
            if forall i :: 0 <= i < |tokens| ==> Agrees(tokens[i], semantic) then Valid else FlagMismatch
    decreases |tokens|
  {
    hide Token, IsKept, IsFlagLike, Agrees;
    if |tokens| == 0 {
      assert tokens + rest == rest;
    } else {
      assert IsGoToken(tokens[0]);
      var flag, value :| IsGoFlag(flag) && IsKept(flag, value) && tokens[0] == Token(flag, value);
      assert tokens + rest == [tokens[0]] + (tokens[1..] + rest);
      hide ValidateFrom;
      ValidateToken(flag, value, tokens[1..] + rest, semantic, build);
      ValidateTokens(tokens[1..], rest, semantic, build);
      assert forall i :: 0 <= i < |tokens[1..]| ==> tokens[1..][i] == tokens[i + 1];
      assert forall i :: 0 < i < |tokens| ==> tokens[i] == tokens[1..][i - 1];
    }
  }

  /** Whatever the parser accepts is validated, unless the recorded flags contradict a `go build` flag. */
  lemma ParsedIsValid(args: seq<string>, build: BuildEnvironment)
    requires Parse(args).Accepted?
    ensures var arguments := Parse(args).arguments;
            Validate(arguments.goArgs, build) ==
            if forall i :: 0 <= i < |arguments.goArgs| - |arguments.packages| ==>
                 Agrees(arguments.goArgs[i], SemanticBuildFlags(build.semanticFlags))
            then Valid else FlagMismatch
  {
    hide Agrees, IsFlagLike, IsGoToken, IsAnalysisToken, SemanticBuildFlags, ParseFrom, ValidateFrom;
    var r := Parse(args).arguments;
    ParseIsNormal(NO_ARGUMENTS, args);
    ValidateTokens(GoFlags(r), r.packages, SemanticBuildFlags(build.semanticFlags), build);
  }

  /** The flags that a recorded build speaks of: those of the analysis, never those of `go build` itself. */
  predicate RecordsAnalysisFlags(build: BuildEnvironment)
  {
    forall i :: 0 <= i < |build.semanticFlags| ==> !IsGoFlag(FlagOf(Cut(build.semanticFlags[i], "=").before))
  }

  lemma {:induction false} SemanticsOfAnalysis(flags: seq<string>)
    requires forall i :: 0 <= i < |flags| ==> !IsGoFlag(FlagOf(Cut(flags[i], "=").before))
    ensures forall flag :: flag in SemanticBuildFlags(flags) ==> !IsGoFlag(flag)
  {
    hide FlagOf, Cut;
    if |flags| == 0 {
    } else {
      SemanticsOfAnalysis(flags[..|flags| - 1]);
    }
  }

  /** In particular, with flags recorded by the analysis, everything parsed is valid. */
  lemma ParsedIsValidAfterAnalysis(args: seq<string>, build: BuildEnvironment)
    requires Parse(args).Accepted? && RecordsAnalysisFlags(build)
    ensures Validate(Parse(args).arguments.goArgs, build) == Valid
  {
    hide Parse, Validate, FlagOf, Token, Cut, IsKept;
    ParsedIsValid(args, build);
    SemanticsOfAnalysis(build.semanticFlags);
  }

  // ------------------------------------------------------------------- where packages start

  predicate TakesNextArgument(name: string)
  {
    name == "p" || name == "tags" || name == "mod" || name == "o"
  }

  function StartFrom(args: seq<string>, first: nat): nat
    decreases |args| - first
  {
    if first < |args| && HasPrefix(args[first], "-") then
      var cut := Cut(args[first], "=");
      var name := TrimPrefix(TrimPrefix(cut.before, "-"), "-");
      StartFrom(args, if !cut.found && TakesNextArgument(name) then first + 2 else first + 1)
    else first
  }

  /** `buildPackageStart`. */
  method BuildPackageStart(args: seq<string>) returns (first: nat)
    ensures first == StartFrom(args, 0)
  {
    first := 0;
    while first < |args| && HasPrefix(args[first], "-")
      invariant StartFrom(args, first) == StartFrom(args, 0)
      decreases |args| - first
    {
      var cut := Cut(args[first], "=");
      var name := TrimPrefix(TrimPrefix(cut.before, "-"), "-");
      if !cut.found && TakesNextArgument(name) {
        first := first + 1;
      }
      first := first + 1;
    }
  }

  lemma StartAdvances(args: seq<string>, first: nat)
    ensures StartFrom(args, first) >= first
    ensures first < |args| && HasPrefix(args[first], "-") ==> StartFrom(args, first) > first
    decreases |args| - first
  {
    hide Cut, TrimPrefix;
    if first < |args| && HasPrefix(args[first], "-") {
      StartAdvances(args, first + 1);
      StartAdvances(args, first + 2);
    }
  }

  lemma {:induction false} StartAfterTokens(args: seq<string>, first: nat, n: nat)
    requires first <= n <= |args| && forall i :: first <= i < n ==> IsGoToken(args[i])
    ensures StartFrom(args, first) == StartFrom(args, n)
    decreases n - first
  {
    hide Token, IsKept, Cut, TrimPrefix, Name;
    if first < n {
      assert IsGoToken(args[first]);
      var flag, value :| IsGoFlag(flag) && IsKept(flag, value) && args[first] == Token(flag, value);
      SplitToken(flag, value);
      StartAfterTokens(args, first + 1, n);
    }
  }

  /** The packages start where the parser put them, exactly if the first one is not a lone dash. */
  lemma StartIsWherePackagesBegin(args: seq<string>)
    requires Parse(args).Accepted?
    ensures var r := Parse(args).arguments;
            StartFrom(r.goArgs, 0) == |r.goArgs| - |r.packages| <==> !(|r.packages| > 0 && r.packages[0] == "-")
  {
    hide IsGoToken, IsAnalysisToken, ParseFrom, StartFrom;
    var r := Parse(args).arguments;
    ParseIsNormal(NO_ARGUMENTS, args);
    var n := |r.goArgs| - |r.packages|;
    StartAfterTokens(r.goArgs, 0, n);
    StartAdvances(r.goArgs, n);
    StopsAtPackage(r.goArgs, n);
  }

  lemma StopsAtPackage(args: seq<string>, n: nat)
    ensures n >= |args| || !HasPrefix(args[n], "-") ==> StartFrom(args, n) == n
  {
  }

  /** A lone dash is accepted as a package, and then the start is past it. */
  lemma LoneDashIsSkipped()
    ensures Parse(["-"]) == Accepted(Arguments("", [], ["-"], ["-"])) && StartFrom(["-"], 0) == 1
  {
  }

  // ----------------------------------------------------------------------------- relocation

  /** The path functions of the platform, and where a directory is in the prepared copies, if it is there. */
  datatype Targets = Targets(
    isAbs: string -> bool, clean: string -> string, dir: string -> string, base: string -> string,
    join: (string, string) -> string, buildDirectory: string -> Option<string>)

  predicate IsFilesystemBuildTarget(targets: Targets, argument: string)
  {
    || targets.isAbs(argument) || argument == "." || argument == ".."
    || HasPrefix(argument, "./") || HasPrefix(argument, "../")
    || HasPrefix(argument, ".\\") || HasPrefix(argument, "..\\")
    || HasSuffix(argument, ".go")
  }

  predicate IsSeparator(c: char)
  {
    c == '/' || c == '\\'
  }

  /** The position of the last separator, or -1. */
  function LastSeparator(s: string): (r: int)
    ensures -1 <= r < |s| && (r >= 0 ==> IsSeparator(s[r]))
    ensures forall k :: r < k < |s| ==> !IsSeparator(s[k])
  {
    if |s| == 0 then -1
    else if IsSeparator(s[|s| - 1]) then |s| - 1
    else LastSeparator(s[..|s| - 1])
  }

  datatype Parts = Parts(directory: string, suffix: string)

  function WildcardParts(path: string): Parts
  {
    var cut := Cut(path, "...");
    if !cut.found then Parts(path, "")
    else
      var start := LastSeparator(cut.before) + 1;
      Parts(if start == 0 then "." else path[..start], path[start..])
  }

  /** `buildTargetParts`: a Go file in its directory, or a directory with the wildcard behind it. */
  function BuildTargetParts(targets: Targets, argument: string): Parts
  {
    var path := targets.clean(argument);
    if HasSuffix(argument, ".go") then Parts(targets.dir(path), targets.base(path)) else WildcardParts(path)
  }

  ghost predicate HasWildcard(path: string)
  {
    exists i: nat :: OccursAt(path, "...", i)
  }

  /** The suffix begins with the first path element that has a wildcard, and there is none before it. */
  lemma WildcardPartsMeaning(path: string)
    ensures var Parts(directory, suffix) := WildcardParts(path);
            && !HasWildcard(directory)
            && (path == directory + suffix || (path == suffix && directory == "."))
            && (suffix == "" <==> !HasWildcard(path))
            && (suffix == "" || path == suffix || IsSeparator(directory[|directory| - 1]))
            && (suffix != "" ==>
                  exists i: nat :: OccursAt(suffix, "...", i) && forall k :: 0 <= k < i ==> !IsSeparator(suffix[k]))
  {
    var index := Index(path, "...");
    assert index >= 0 ==> OccursAt(path, "...", index) && index + 3 <= |path|;
    hide Index, OccursAt;
    if index < 0 {
    } else {
      var start := LastSeparator(path[..index]) + 1;
      assert 0 <= start <= index;
      OccursBehind(path, "...", start, index - start);
      SuffixStart(path, index, start);
      forall i: nat
        ensures !OccursAt(path[..start], "...", i)
      {
        OccursBefore(path, "...", start, i);
      }
      TooShort(".", "...");
    }
  }

  lemma SuffixStart(path: string, index: nat, start: nat)
    requires index <= |path| && start == LastSeparator(path[..index]) + 1
    ensures start <= index && (start > 0 ==> IsSeparator(path[start - 1]))
    ensures forall k :: 0 <= k < index - start ==> !IsSeparator(path[start..][k])
  {
    assert forall k :: 0 <= k < index - start ==> path[start..][k] == path[..index][start + k];
  }

  lemma TooShort(s: string, sub: string)
    requires |s| < |sub|
    ensures forall i: nat :: !OccursAt(s, sub, i)
  {
  }

  lemma OccursBehind(s: string, sub: string, start: nat, i: nat)
    requires start + i <= |s|
    ensures OccursAt(s[start..], sub, i) <==> OccursAt(s, sub, start + i)
  {
    assert start + i + |sub| <= |s| ==> s[start..][i..i + |sub|] == s[start + i..start + i + |sub|];
  }

  lemma OccursBefore(s: string, sub: string, end: nat, i: nat)
    requires end <= |s|
    ensures OccursAt(s[..end], sub, i) <==> i + |sub| <= end && OccursAt(s, sub, i)
  {
    assert i + |sub| <= end ==> s[..end][i..i + |sub|] == s[i..i + |sub|];
  }

  /** `relocateBuildTarget`. */
  function RelocateBuildTarget(targets: Targets, argument: string, originalDir: string): Option<string>
  {
    var parts := BuildTargetParts(targets, argument);
    var directory :=
      if targets.isAbs(parts.directory) then parts.directory else targets.join(originalDir, parts.directory);
    match targets.buildDirectory(directory)
    case None => None
    case Some(copied) => Some(targets.join(copied, parts.suffix))
  }

  /** The argument in the prepared copies; one that is no path stays. */
  function Relocated(targets: Targets, originalDir: string, argument: string): Option<string>
  {
    if IsFilesystemBuildTarget(targets, argument) then RelocateBuildTarget(targets, argument, originalDir)
    else Some(argument)
  }

  /** `NotPrepared` names the first argument whose directory has no copy. */
  datatype Relocation = Moved(args: seq<string>) | RelativeDirectory | NotPrepared(position: nat)

  /** `RelocateBuildArguments`, rewriting a copy of the arguments in place. */
  method RelocateBuildArguments(targets: Targets, args: seq<string>, originalDir: string) returns (r: Relocation)
    ensures r.RelativeDirectory? <==> !targets.isAbs(originalDir)
    ensures r.Moved? ==>
              && |r.args| == |args|
              && forall i :: 0 <= i < |args| ==>
                   Some(r.args[i]) ==
                   if i < StartFrom(args, 0) then Some(args[i]) else Relocated(targets, originalDir, args[i])
    ensures r.NotPrepared? ==>
              && StartFrom(args, 0) <= r.position < |args|
              && Relocated(targets, originalDir, args[r.position]).None?
              && forall i :: StartFrom(args, 0) <= i < r.position ==> Relocated(targets, originalDir, args[i]).Some?
  {
    hide IsFilesystemBuildTarget, RelocateBuildTarget;
    if !targets.isAbs(originalDir) {
      return RelativeDirectory;
    }
    var result := args;
    var first := BuildPackageStart(args);
    var position := first;
    while position < |result|
      invariant first <= position && |result| == |args|
      invariant forall i :: first <= i < position && i < |args| ==> Relocated(targets, originalDir, args[i]).Some?
      invariant forall i :: 0 <= i < |args| ==>
                  Some(result[i]) ==
                  if i < first || i >= position then Some(args[i]) else Relocated(targets, originalDir, args[i])
    {
      var argument := result[position];
      if IsFilesystemBuildTarget(targets, argument) {
        var relocated := RelocateBuildTarget(targets, argument, originalDir);
        if relocated == None {
          return NotPrepared(position);
        }
        result := result[position := relocated.value];
      }
      position := position + 1;
    }
    return Moved(result);
  }
}
