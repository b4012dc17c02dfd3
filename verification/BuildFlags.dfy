module BuildFlags {
  // What the parser makes of each spelling of a build flag (internal/cli/build_arguments.go).

  import opened BuildArguments
  import opened Orders
  import opened Policies
  import opened Strings

  // ------------------------------------------------------------------------ the specification

  const BOOLEAN_FLAGS := ["-race", "-msan", "-asan", "-trimpath", "-buildvcs", "-a", "-v", "-x"]

  const VALUE_FLAGS := ["-o", "-p", "-tags", "-mod", "-modfile"]

  datatype Given = Given(name: string, value: string)

  function Spell(given: Given): string
  {
    given.name + "=" + given.value
  }

  function SpellAll(given: seq<Given>): seq<string>
  {
    if |given| == 0 then [] else [Spell(given[0])] + SpellAll(given[1..])
  }

  /** The values that each flag may have. */
  predicate IsAllowed(given: Given)
  {
    || (given.name in ["-race", "-msan", "-asan", "-trimpath", "-a", "-v", "-x"] && given.value in ["true", "false"])
    || (given.name == "-buildvcs" && given.value in ["true", "false", "auto"])
    || (given.name in ["-o", "-p"] && given.value != "")
    || given.name == "-tags"
    || (given.name == "-mod" && given.value in ["mod", "readonly", "vendor"])
    || (given.name == "-modfile" && HasSuffix(given.value, ".mod"))
  }

  /** The flags that `go build` gets; the others decide what is analyzed. */
  predicate IsForBuild(given: Given)
  {
    given.name in ["-p", "-a", "-v", "-x"]
  }

  function BuildTokens(given: seq<Given>): seq<string>
  {
    if |given| == 0 then []
    else if IsForBuild(given[0]) then [Spell(given[0])] + BuildTokens(given[1..])
    else BuildTokens(given[1..])
  }

  function AnalysisTokens(given: seq<Given>): seq<string>
  {
    if |given| == 0 then []
    else if IsForBuild(given[0]) || given[0].name == "-o" then AnalysisTokens(given[1..])
    else [Spell(given[0])] + AnalysisTokens(given[1..])
  }

  /** The last output given, or the one before all. */
  function OutputOf(given: seq<Given>, before: string): string
  {
    if |given| == 0 then before else OutputOf(given[1..], if given[0].name == "-o" then given[0].value else before)
  }

  // ------------------------------------------------------------------------------ one flag

  lemma KnownNames(name: string)
    requires name in BOOLEAN_FLAGS || name in VALUE_FLAGS
    ensures var flag := FlagOf(name);
            && !flag.Unknown? && Name(flag) == name
            && (name in BOOLEAN_FLAGS <==> IsBoolean(flag)) && (name in VALUE_FLAGS <==> TakesValue(flag))
    ensures |name| > 1 && name[0] == '-' && name[1] != '-' && '=' !in name
  {
    hide Name;
    NameOfFlag(name);
    FlagOfName(FlagOf(name));
  }

  lemma NotCut(name: string)
    requires '=' !in name
    ensures Cut(name, "=") == CutResult(name, "", false)
  {
    hide Index;
    FirstCharacter(name, '=');
  }

  /** How each spelling is split. */
  lemma SplitSpellings(name: string, value: string)
    requires name in BOOLEAN_FLAGS || name in VALUE_FLAGS
    ensures SplitBuildFlag(name) == CutResult(name, "", false)
    ensures SplitBuildFlag(name + "=" + value) == CutResult(name, value, true)
    ensures IsFlagLike(name) && IsFlagLike(name + "=" + value)
  {
    hide Cut, Name, FlagOf;
    KnownNames(name);
    NotCut(name);
    CutToken(name, value);
    assert (name + "=" + value)[..1] == name[..1];
  }

  /** A boolean flag without a value means true. */
  lemma BareMeansTrue(name: string, rest: seq<string>)
    requires name in BOOLEAN_FLAGS
    ensures Parse([name] + rest) == Parse([name + "=" + "true"] + rest)
  {
    hide SplitBuildFlag, FlagOf, Name, IsFlagLike, Token;
    KnownNames(name);
    SplitSpellings(name, "true");
    assert ([name] + rest)[1..] == rest && ([name + "=" + "true"] + rest)[1..] == rest;
  }

  /** The value of a flag may follow as the next argument. */
  lemma ValueMayFollow(name: string, value: string, rest: seq<string>)
    requires name in VALUE_FLAGS
    ensures Parse([name, value] + rest) == Parse([name + "=" + value] + rest)
  {
    hide SplitBuildFlag, FlagOf, Name, IsFlagLike, Token, AppendValueBuildFlag;
    KnownNames(name);
    SplitSpellings(name, value);
    var apart, joined := [name, value] + rest, [name + "=" + value] + rest;
    assert apart[1..] == [value] + rest && ([value] + rest)[1..] == rest && joined[1..] == rest;
  }

  /** One dash or two make no difference. */
  lemma DashesAgree(argument: string, rest: seq<string>)
    requires HasPrefix(argument, "-") && argument != "-" && !HasPrefix(argument, "--")
    ensures Parse(["-" + argument] + rest) == Parse([argument] + rest)
  {
    hide FlagOf, SplitBuildFlag, AppendValueBuildFlag, AppendBooleanBuildFlag, BuildFlagValue, TakesValue, IsBoolean;
    SameSplit(argument);
    assert ["-" + argument][0] == "-" + argument;
    assert (["-" + argument] + rest)[1..] == rest && ([argument] + rest)[1..] == rest;
  }

  /** A dash in front moves every cut by one. */
  lemma CutBehindDash(argument: string)
    ensures var cut := Cut(argument, "=");
            Cut("-" + argument, "=") == cut.(before := "-" + cut.before)
  {
    hide Index;
    var doubled := "-" + argument;
    FirstCharacter(argument, '=');
    FirstCharacter(doubled, '=');
    var i, j := Index(argument, "="), Index(doubled, "=");
    assert forall k :: 0 <= k < |argument| ==> doubled[k + 1] == argument[k];
    if i < 0 {
      assert forall k :: 0 < k < |doubled| ==> doubled[k] == argument[k - 1];
    } else {
      assert doubled[i + 1] == '=' && j == i + 1;
      assert doubled[..j] == "-" + argument[..i] && doubled[j + 1..] == argument[i + 1..];
    }
  }

  lemma SameSplit(argument: string)
    requires HasPrefix(argument, "-") && argument != "-" && !HasPrefix(argument, "--")
    ensures SplitBuildFlag("-" + argument) == SplitBuildFlag(argument)
  {
    hide Cut;
    CutBehindDash(argument);
    var cut := Cut(argument, "=");
    BeforeStartsAlike(argument);
    assert ("-" + cut.before)[1..] == cut.before;
  }

  lemma BeforeStartsAlike(argument: string)
    requires HasPrefix(argument, "-") && argument != "-" && !HasPrefix(argument, "--")
    ensures var before := Cut(argument, "=").before;
            |before| > 0 && before[0] == '-' && !HasPrefix(before, "--") && HasPrefix("-" + before, "--")
  {
    hide Index;
    FirstCharacter(argument, '=');
    assert argument[0] == '-' && argument[1] != '-';
  }

  // ------------------------------------------------------------------------------ all flags

  function With(arguments: Arguments, given: Given): Arguments
  {
    if given.name == "-o" then arguments.(output := given.value)
    else if IsForBuild(given) then arguments.(goArgs := arguments.goArgs + [Spell(given)])
    else arguments.(analysisFlags := arguments.analysisFlags + [Spell(given)])
  }

  lemma AllowedIsKept(given: Given)
    requires IsAllowed(given)
    ensures given.name in BOOLEAN_FLAGS || given.name in VALUE_FLAGS
    ensures var flag := FlagOf(given.name);
            if given.name == "-o" then flag == Output && given.value != ""
            else IsKept(flag, given.value) && (IsForBuild(given) <==> IsGoFlag(flag))
  {
    hide HasSuffix;
  }

  lemma OneRecorded(arguments: Arguments, given: Given, rest: seq<string>)
    requires IsAllowed(given)
    ensures ParseFrom(arguments, [Spell(given)] + rest) == ParseFrom(With(arguments, given), rest)
  {
    hide IsAllowed, ParseFrom, FlagOf, Name, IsKept, IsGoFlag, IsForBuild;
    var flag := FlagOf(given.name);
    AllowedIsKept(given);
    KnownNames(given.name);
    assert Token(flag, given.value) == Spell(given);
    if given.name == "-o" {
      ParseOutput(arguments, given.value, rest);
    } else {
      ParseToken(arguments, flag, given.value, rest);
    }
  }

  lemma WithOne(arguments: Arguments, given: seq<Given>)
    requires |given| > 0
    ensures var next := With(arguments, given[0]);
            && next.analysisFlags + AnalysisTokens(given[1..]) == arguments.analysisFlags + AnalysisTokens(given)
            && next.goArgs + BuildTokens(given[1..]) == arguments.goArgs + BuildTokens(given)
            && OutputOf(given[1..], next.output) == OutputOf(given, arguments.output)
            && next.packages == arguments.packages
  {
    hide Spell, IsForBuild;
    var first := given[0];
    OutputIsNotForBuild(first);
    if first.name == "-o" {
    } else if IsForBuild(first) {
      Regroup(arguments.goArgs, Spell(first), BuildTokens(given[1..]));
    } else {
      Regroup(arguments.analysisFlags, Spell(first), AnalysisTokens(given[1..]));
    }
  }

  lemma OutputIsNotForBuild(given: Given)
    ensures given.name == "-o" ==> !IsForBuild(given)
  {
  }

  lemma Regroup(before: seq<string>, token: string, behind: seq<string>)
    ensures (before + [token]) + behind == before + ([token] + behind)
  {
  }

  lemma {:induction false} AllRecorded(arguments: Arguments, given: seq<Given>, packages: seq<string>)
    requires forall i :: 0 <= i < |given| ==> IsAllowed(given[i])
    requires |packages| > 0 ==> packages[0] == "-" || !HasPrefix(packages[0], "-")
    requires arguments.packages == []
    ensures ParseFrom(arguments, SpellAll(given) + packages) ==
            Accepted(Arguments(OutputOf(given, arguments.output), arguments.analysisFlags + AnalysisTokens(given),
                               arguments.goArgs + BuildTokens(given) + packages, packages))
    decreases |given|
  {
    hide IsAllowed, Spell, IsForBuild;
    if |given| == 0 {
      assert SpellAll(given) + packages == packages;
      assert arguments.analysisFlags + [] == arguments.analysisFlags;
      assert arguments.goArgs + [] + packages == arguments.goArgs + packages;
    } else {
      assert SpellAll(given) + packages == [Spell(given[0])] + (SpellAll(given[1..]) + packages);
      OneRecorded(arguments, given[0], SpellAll(given[1..]) + packages);
      hide ParseFrom;
      hide With, AnalysisTokens, BuildTokens, OutputOf;
      WithOne(arguments, given);
      AllRecorded(With(arguments, given[0]), given[1..], packages);
    }
  }

  /**
   Allowed flags are recorded unchanged and in order, each on its side; the last output counts, and
   the packages follow.
   */
  lemma RecordedInOrder(given: seq<Given>, packages: seq<string>)
    requires forall i :: 0 <= i < |given| ==> IsAllowed(given[i])
    requires |packages| > 0 ==> packages[0] == "-" || !HasPrefix(packages[0], "-")
    ensures Parse(SpellAll(given) + packages) ==
            Accepted(Arguments(OutputOf(given, ""), AnalysisTokens(given), BuildTokens(given) + packages, packages))
  {
    hide IsAllowed, ParseFrom, AnalysisTokens, BuildTokens, OutputOf, SpellAll;
    AllRecorded(NO_ARGUMENTS, given, packages);
    assert [] + AnalysisTokens(given) == AnalysisTokens(given) && [] + BuildTokens(given) == BuildTokens(given);
  }

  /** Why a flag with this value is refused. */
  function Refusal(given: Given): ParseOutcome
  {
    if given.name in BOOLEAN_FLAGS then BadBoolean
    else if given.name !in VALUE_FLAGS then Unsupported
    else if given.value == "" then ValueMissing
    else if given.name == "-mod" then BadModuleMode
    else BadModuleFile
  }

  /** A flag with a value that is not allowed is refused, wherever it is, before anything behind it is read. */
  lemma {:induction false} OthersAreRefused(arguments: Arguments, given: seq<Given>, bad: Given, rest: seq<string>)
    requires forall i :: 0 <= i < |given| ==> IsAllowed(given[i])
    requires bad.name in BOOLEAN_FLAGS || bad.name in VALUE_FLAGS
    requires !IsAllowed(bad)
    ensures ParseFrom(arguments, SpellAll(given) + ([Spell(bad)] + rest)) == Refusal(bad)
    decreases |given|
  {
    hide IsAllowed, Spell;
    var behind := [Spell(bad)] + rest;
    if |given| == 0 {
      assert SpellAll(given) + behind == behind;
      OneRefused(arguments, bad, rest);
    } else {
      assert SpellAll(given) + behind == [Spell(given[0])] + (SpellAll(given[1..]) + behind);
      OneRecorded(arguments, given[0], SpellAll(given[1..]) + behind);
      hide ParseFrom;
      OthersAreRefused(With(arguments, given[0]), given[1..], bad, rest);
    }
  }

  lemma OneRefused(arguments: Arguments, bad: Given, rest: seq<string>)
    requires bad.name in BOOLEAN_FLAGS || bad.name in VALUE_FLAGS
    requires !IsAllowed(bad)
    ensures ParseFrom(arguments, [Spell(bad)] + rest) == Refusal(bad)
  {
    hide SplitBuildFlag, IsFlagLike, HasSuffix, Name;
    KnownNames(bad.name);
    SplitSpellings(bad.name, bad.value);
    var remaining := [Spell(bad)] + rest;
    assert remaining[1..] == rest;
    hide Token;
  }

  /** Any other flag is refused, with a value or without. */
  lemma UnknownIsRefused(arguments: Arguments, name: string, value: string, rest: seq<string>)
    requires HasPrefix(name, "-") && name != "-" && !HasPrefix(name, "--") && '=' !in name
    requires name !in BOOLEAN_FLAGS && name !in VALUE_FLAGS
    ensures ParseFrom(arguments, [name] + rest) == Unsupported
    ensures ParseFrom(arguments, [name + "=" + value] + rest) == Unsupported
  {
    hide Cut;
    NotCut(name);
    CutToken(name, value);
    assert FlagOf(name) == Unknown(name);
    assert (name + "=" + value)[..1] == name[..1];
  }

  /** A flag that needs a value is refused at the end. */
  lemma ValueIsMissing(arguments: Arguments, name: string)
    requires name in VALUE_FLAGS
    ensures ParseFrom(arguments, [name]) == ValueMissing
  {
    hide SplitBuildFlag, FlagOf, Name, IsFlagLike, Token;
    KnownNames(name);
    SplitSpellings(name, "");
  }

  // ----------------------------------------------------------------------------- validation

  /** What a build records of a flag: the last entry for it, otherwise the default of the analysis, if any. */
  function RecordedValue(flags: seq<string>, name: string): Option<string>
  {
    if |flags| == 0 then
      if name in ["-race", "-msan", "-asan", "-trimpath"] then Some("false")
      else if name == "-buildvcs" then Some("auto")
      else None
    else
      var cut := Cut(flags[|flags| - 1], "=");
      if cut.before == name then Some(cut.after) else RecordedValue(flags[..|flags| - 1], name)
  }

  lemma OneFlagPerName(a: string, b: string)
    ensures FlagOf(a) == FlagOf(b) <==> a == b
  {
    hide FlagOf;
    NameOfFlag(a);
    NameOfFlag(b);
  }

  lemma NameOfFlag(name: string)
    ensures Name(FlagOf(name)) == name
  {
  }

  lemma {:induction false} SemanticsMeaning(flags: seq<string>, name: string)
    ensures var semantic := SemanticBuildFlags(flags);
            RecordedValue(flags, name) == if FlagOf(name) in semantic then Some(semantic[FlagOf(name)]) else None
  {
    if |flags| == 0 {
    } else {
      hide FlagOf, Cut;
      SemanticsMeaning(flags[..|flags| - 1], name);
      OneFlagPerName(Cut(flags[|flags| - 1], "=").before, name);
    }
  }

  predicate IsTagSeparator(c: char)
  {
    c == ',' || IsSpace(c)
  }

  /** A tag is a longest run without separators. */
  ghost predicate IsTagOf(value: string, tag: string)
  {
    exists i: nat, j: nat :: IsRun(value, tag, i, j)
  }

  ghost predicate IsRun(value: string, tag: string, i: nat, j: nat)
  {
    && i < j <= |value| && tag == value[i..j]
    && (forall k :: i <= k < j ==> !IsTagSeparator(value[k]))
    && (i == 0 || IsTagSeparator(value[i - 1])) && (j == |value| || IsTagSeparator(value[j]))
  }

  function FirstSeparator(value: string): (k: nat)
    ensures k <= |value| && (k < |value| ==> IsTagSeparator(value[k]))
    ensures forall i :: 0 <= i < k ==> !IsTagSeparator(value[i])
  {
    if |value| == 0 || IsTagSeparator(value[0]) then 0 else FirstSeparator(value[1..]) + 1
  }

  lemma {:induction false} FieldsStep(value: string, current: string)
    ensures var k := FirstSeparator(value);
            var first := current + value[..k];
            Fields(value, current) ==
            (if first == "" then [] else [first]) + (if k < |value| then Fields(value[k + 1..], "") else [])
  {
    hide IsSpace;
    if |value| == 0 || IsTagSeparator(value[0]) {
      assert current + value[..0] == current;
    } else {
      FieldsStep(value[1..], current + [value[0]]);
      var k := FirstSeparator(value[1..]);
      assert current + [value[0]] + value[1..][..k] == current + value[..k + 1];
    }
  }

  lemma FirstRun(value: string, tag: string)
    ensures var k := FirstSeparator(value);
            IsTagOf(value, tag) <==>
            (tag == value[..k] && k > 0) || (k < |value| && IsTagOf(value[k + 1..], tag))
  {
    hide IsRun, IsTagSeparator, FirstSeparator;
    var k := FirstSeparator(value);
    if tag == value[..k] && k > 0 {
      RunAtStart(value, tag, k);
    }
    if i: nat, j: nat :| IsRun(value, tag, i, j) {
      AnyRun(value, tag, i, j);
    }
    if k < |value| && IsTagOf(value[k + 1..], tag) {
      var i: nat, j: nat :| IsRun(value[k + 1..], tag, i, j);
      RunBehind(value, tag, k + 1, i, j);
    }
  }

  lemma AnyRun(value: string, tag: string, i: nat, j: nat)
    requires IsRun(value, tag, i, j)
    ensures var k := FirstSeparator(value);
            (k > 0 && tag == value[..k]) || (k < |value| && IsTagOf(value[k + 1..], tag))
  {
    hide IsRun, IsTagSeparator, FirstSeparator;
    if i == 0 {
      RunAtStart(value, tag, j);
    } else {
      var k := FirstSeparator(value);
      RunAfterStart(value, tag, i, j);
      RunBehind(value, tag, k + 1, i - k - 1, j - k - 1);
    }
  }

  lemma RunAtStart(value: string, tag: string, j: nat)
    ensures IsRun(value, tag, 0, j) <==> j > 0 && j == FirstSeparator(value) && tag == value[..j]
  {
    hide IsTagSeparator;
  }

  lemma RunAfterStart(value: string, tag: string, i: nat, j: nat)
    requires IsRun(value, tag, i, j) && i > 0
    ensures FirstSeparator(value) < i && FirstSeparator(value) < |value| && j - FirstSeparator(value) - 1 >= 0
  {
    hide IsTagSeparator;
  }

  lemma RunBehind(value: string, tag: string, from: nat, i: nat, j: nat)
    requires 0 < from <= |value| && IsTagSeparator(value[from - 1])
    ensures IsRun(value[from..], tag, i, j) <==> IsRun(value, tag, from + i, from + j)
  {
    hide IsTagSeparator;
    var rest := value[from..];
    assert forall k :: 0 <= k < |rest| ==> rest[k] == value[from + k];
    assert i < j <= |rest| ==> rest[i..j] == value[from + i..from + j];
    assert forall k :: from <= k < |value| ==> value[k] == rest[k - from];
  }

  lemma {:induction false} FieldsAreTags(value: string, tag: string)
    ensures tag in Fields(value, "") <==> IsTagOf(value, tag)
    decreases |value|
  {
    hide IsTagOf, IsTagSeparator, Fields;
    var k := FirstSeparator(value);
    FieldsStep(value, "");
    FirstRun(value, tag);
    assert "" + value[..k] == value[..k];
    if k < |value| {
      FieldsAreTags(value[k + 1..], tag);
    }
  }

  ghost predicate SameTags(value: string, tags: seq<string>)
  {
    forall tag :: IsTagOf(value, tag) <==> tag in tags
  }

  lemma TagsMeaning(value: string, tags: seq<string>)
    ensures CanonicalSet(Fields(value, "")) == CanonicalSet(tags) <==> SameTags(value, tags)
  {
    hide CanonicalSet, Fields, IsTagOf;
    CanonicalSetIsDetermined(Fields(value, ""), tags);
    forall tag
      ensures tag in Fields(value, "") <==> IsTagOf(value, tag)
    {
      FieldsAreTags(value, tag);
    }
  }

  /** What is said to one flag with its value. */
  ghost function VerdictOn(given: Given, build: BuildEnvironment): Verdict
  {
    var recorded := RecordedValue(build.semanticFlags, given.name);
    if recorded.Some? then if given.value == recorded.value then Valid else FlagMismatch
    else if given.name in ["-o", "-p"] then if given.value == "" then ValueRequired else Valid
    else if given.name == "-tags" then if SameTags(given.value, build.buildTags) then Valid else TagsMismatch
    else if given.name == "-mod" then
      if given.value == "" then ValueRequired else if given.value == build.moduleMode then Valid else ModeMismatch
    else if given.name in ["-a", "-v", "-x"] then
      if given.value in ["true", "false"] then Valid else InvalidBoolean
    else UnsupportedOverride
  }

  /** Each flag is judged on its own, and the first verdict against one is the verdict. */
  lemma ValidatedInOrder(given: Given, rest: seq<string>, build: BuildEnvironment)
    requires given.name in BOOLEAN_FLAGS || given.name in VALUE_FLAGS
    ensures var verdict := VerdictOn(given, build);
            Validate([Spell(given)] + rest, build) == if verdict.Valid? then Validate(rest, build) else verdict
  {
    hide SplitBuildFlag, IsFlagLike, Name, SemanticBuildFlags, RecordedValue, CanonicalSet, SameTags, FlagOf;
    SplitSpellings(given.name, given.value);
    SemanticsMeaning(build.semanticFlags, given.name);
    TagsMeaning(given.value, build.buildTags);
    KnownFlags(given.name);
    assert ([Spell(given)] + rest)[1..] == rest;
  }

  lemma KnownFlags(name: string)
    requires name in BOOLEAN_FLAGS || name in VALUE_FLAGS
    ensures FlagOf(name).Output? <==> name == "-o"
    ensures FlagOf(name).Parallel? <==> name == "-p"
    ensures FlagOf(name).Tags? <==> name == "-tags"
    ensures FlagOf(name).Mod? <==> name == "-mod"
    ensures FlagOf(name).RebuildAll? <==> name == "-a"
    ensures FlagOf(name).Verbose? <==> name == "-v"
    ensures FlagOf(name).Trace? <==> name == "-x"
  {
  }

  /** A boolean flag without a value is judged like one that is true. */
  lemma BareIsJudgedTrue(name: string, rest: seq<string>, build: BuildEnvironment)
    requires name in BOOLEAN_FLAGS
    ensures Validate([name] + rest, build) == Validate([name + "=" + "true"] + rest, build)
  {
    hide SplitBuildFlag, IsFlagLike, Name, SemanticBuildFlags, CanonicalSet, Fields, FlagOf;
    SplitSpellings(name, "true");
    KnownFlags(name);
    KnownNames(name);
    assert ([name] + rest)[1..] == rest && ([name + "=" + "true"] + rest)[1..] == rest;
  }

  // ------------------------------------------------------------------- where packages start

  /** A flag as it may be written: with its value, before its value, or alone. */
  datatype Spelling = Together(name: string, value: string) | Apart(name: string, value: string) | Alone(name: string)

  function Written(spelling: Spelling): seq<string>
  {
    match spelling
    case Together(name, value) => [name + "=" + value]
    case Apart(name, value) => [name, value]
    case Alone(name) => [name]
  }

  function WrittenAll(spellings: seq<Spelling>): seq<string>
  {
    if |spellings| == 0 then [] else Written(spellings[0]) + WrittenAll(spellings[1..])
  }

  /** Only these flags are known to take the next argument; any other stands alone or has its value with it. */
  predicate IsSpelling(spelling: Spelling)
  {
    match spelling
    case Together(name, _) => HasPrefix(name, "-") && '=' !in name
    case Apart(name, _) => name in ["-p", "-tags", "-mod", "-o", "--p", "--tags", "--mod", "--o"]
    case Alone(name) => HasPrefix(name, "-") && '=' !in name &&
                        name !in ["-p", "-tags", "-mod", "-o", "--p", "--tags", "--mod", "--o"]
  }

  /** The flags are skipped with their values, however they are written, and nothing else is. */
  lemma {:induction false} FlagsAreSkipped(args: seq<string>, first: nat, spellings: seq<Spelling>,
                                           packages: seq<string>)
    requires first <= |args| && args[first..] == WrittenAll(spellings) + packages
    requires forall i :: 0 <= i < |spellings| ==> IsSpelling(spellings[i])
    requires |packages| > 0 ==> !HasPrefix(packages[0], "-")
    ensures StartFrom(args, first) == first + |WrittenAll(spellings)|
    decreases |spellings|
  {
    hide IsSpelling, Written, Cut, TrimPrefix, TakesNextArgument;
    if |spellings| == 0 {
      assert args[first..] == packages;
      assert |packages| > 0 ==> args[first] == packages[0];
    } else {
      var head, rest := Written(spellings[0]), WrittenAll(spellings[1..]);
      hide StartFrom;
      Behind(args, first, head, rest, packages);
      SpellingIsSkipped(args, first, spellings[0]);
      FlagsAreSkipped(args, first + |head|, spellings[1..], packages);
    }
  }

  lemma Behind(args: seq<string>, first: nat, head: seq<string>, rest: seq<string>, packages: seq<string>)
    requires first <= |args| && args[first..] == (head + rest) + packages
    ensures first + |head| <= |args| && args[first + |head|..] == rest + packages && args[first..][..|head|] == head
  {
    assert args[first..] == head + (rest + packages);
    assert args[first..][|head|..] == rest + packages;
  }

  lemma SpellingIsSkipped(args: seq<string>, first: nat, spelling: Spelling)
    requires IsSpelling(spelling) && first + |Written(spelling)| <= |args|
    requires args[first..][..|Written(spelling)|] == Written(spelling)
    ensures StartFrom(args, first) == StartFrom(args, first + |Written(spelling)|)
  {
    hide StartFrom;
    assert args[first] == args[first..][0];
    match spelling {
      case Together(name, value) => TogetherIsSkipped(args, first, name, value);
      case Apart(name, _) => ApartIsSkipped(args, first, name);
      case Alone(name) => AloneIsSkipped(args, first, name);
    }
  }

  lemma TogetherIsSkipped(args: seq<string>, first: nat, name: string, value: string)
    requires first < |args| && args[first] == name + "=" + value && HasPrefix(name, "-") && '=' !in name
    ensures StartFrom(args, first) == StartFrom(args, first + 1)
  {
    hide Cut, TrimPrefix, TakesNextArgument;
    CutToken(name, value);
    assert (name + "=" + value)[..1] == name[..1];
  }

  lemma ApartIsSkipped(args: seq<string>, first: nat, name: string)
    requires first < |args| && args[first] == name
    requires name in ["-p", "-tags", "-mod", "-o", "--p", "--tags", "--mod", "--o"]
    ensures StartFrom(args, first) == StartFrom(args, first + 2)
  {
    hide Cut, TrimPrefix, TakesNextArgument;
    Taking(name);
    NotCut(name);
  }

  lemma AloneIsSkipped(args: seq<string>, first: nat, name: string)
    requires first < |args| && args[first] == name && HasPrefix(name, "-") && '=' !in name
    requires name !in ["-p", "-tags", "-mod", "-o", "--p", "--tags", "--mod", "--o"]
    ensures StartFrom(args, first) == StartFrom(args, first + 1)
  {
    hide Cut, TrimPrefix, TakesNextArgument;
    NotTaking(name);
    NotCut(name);
  }

  lemma TrimDash(rest: string)
    ensures TrimPrefix("-" + rest, "-") == rest
    ensures |rest| > 0 && rest[0] != '-' ==> TrimPrefix(rest, "-") == rest
  {
    assert ("-" + rest)[..1] == "-" && ("-" + rest)[1..] == rest;
  }

  lemma TrimBoth(name: string)
    requires name in ["p", "tags", "mod", "o"]
    ensures TrimPrefix(TrimPrefix("-" + name, "-"), "-") == name
    ensures TrimPrefix(TrimPrefix("-" + ("-" + name), "-"), "-") == name
    ensures '=' !in "-" + ("-" + name) && '=' !in "-" + name
  {
    TrimDash(name);
    TrimDash("-" + name);
    hide TrimPrefix;
  }

  lemma Taking(name: string)
    requires name in ["-p", "-tags", "-mod", "-o", "--p", "--tags", "--mod", "--o"]
    ensures TakesNextArgument(TrimPrefix(TrimPrefix(name, "-"), "-"))
    ensures '=' !in name && HasPrefix(name, "-")
  {
    hide TrimPrefix;
    TrimBoth("p");
    TrimBoth("tags");
    TrimBoth("mod");
    TrimBoth("o");
    assert "-" + ("-" + "p") == "--p" && "-" + ("-" + "tags") == "--tags";
    assert "-" + ("-" + "mod") == "--mod" && "-" + ("-" + "o") == "--o";
    assert "-" + "p" == "-p" && "-" + "tags" == "-tags" && "-" + "mod" == "-mod" && "-" + "o" == "-o";
  }

  lemma NotTaking(name: string)
    requires HasPrefix(name, "-")
    requires name !in ["-p", "-tags", "-mod", "-o", "--p", "--tags", "--mod", "--o"]
    ensures !TakesNextArgument(TrimPrefix(TrimPrefix(name, "-"), "-"))
  {
    var once := TrimPrefix(name, "-");
    var twice := TrimPrefix(once, "-");
    assert name == "-" + once && (once == twice || once == "-" + twice);
    Dashed(twice);
  }

  lemma Dashed(name: string)
    ensures TakesNextArgument(name) ==>
              && "-" + name in ["-p", "-tags", "-mod", "-o", "--p", "--tags", "--mod", "--o"]
              && "-" + ("-" + name) in ["-p", "-tags", "-mod", "-o", "--p", "--tags", "--mod", "--o"]
  {
    if name == "p" {
      assert "-" + name == "-p" && "-" + ("-" + name) == "--p";
    } else if name == "tags" {
      assert "-" + name == "-tags" && "-" + ("-" + name) == "--tags";
    } else if name == "mod" {
      assert "-" + name == "-mod" && "-" + ("-" + name) == "--mod";
    } else if name == "o" {
      assert "-" + name == "-o" && "-" + ("-" + name) == "--o";
    }
  }

  // ----------------------------------------------------------------------------- relocation

  /** The argument is a path or a Go file, and no import path. */
  predicate NamesPath(targets: Targets, argument: string)
  {
    || targets.isAbs(argument) || argument in [".", ".."] || HasSuffix(argument, ".go")
    || (|argument| >= 2 && argument[..2] in ["./", ".\\"]) || (|argument| >= 3 && argument[..3] in ["../", "..\\"])
  }

  /** The directory that an argument names, as an absolute path, and what is kept behind it. */
  predicate Names(targets: Targets, argument: string, originalDir: string, directory: string, suffix: string)
  {
    var path := targets.clean(argument);
    var parts :=
      if HasSuffix(argument, ".go") then Parts(targets.dir(path), targets.base(path)) else WildcardParts(path);
    && suffix == parts.suffix
    && directory == if targets.isAbs(parts.directory) then parts.directory
                    else targets.join(originalDir, parts.directory)
  }

  /** A path becomes the same file, directory or pattern in the prepared directory; anything else stays. */
  lemma RelocatedMeaning(targets: Targets, originalDir: string, argument: string, directory: string, suffix: string)
    requires Names(targets, argument, originalDir, directory, suffix)
    ensures Relocated(targets, originalDir, argument) ==
            if !NamesPath(targets, argument) then Some(argument)
            else match targets.buildDirectory(directory)
              case Some(copied) => Some(targets.join(copied, suffix))
              case None => None
  {
    hide WildcardParts;
  }
}
