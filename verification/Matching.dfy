/** Selector matching (internal/resolve/match.go). */
module Matching {
  import opened Globs
  import opened Policies

  /** `BadPattern` is the error for the first malformed pattern. */
  datatype Outcome = Answer(matched: bool) | BadPattern(pattern: string)

  // -------------------------------------------------------------------------- specification

  ghost predicate ValidPattern(matcher: SegmentMatcher, pattern: string)
  {
    forall part :: part in Split(pattern) ==> ValidPart(matcher, part)
  }

  ghost predicate PatternHolds(matcher: SegmentMatcher, pattern: string, value: string)
  {
    Meaning(matcher, Split(pattern), Split(value))
  }

  /** Patterns of one field are alternatives; an empty list places no condition, an empty value matches none. */
  ghost predicate FieldHolds(matcher: SegmentMatcher, patterns: seq<string>, value: string)
  {
    |patterns| == 0 || (value != "" && exists pattern :: pattern in patterns && PatternHolds(matcher, pattern, value))
  }

  predicate InterfaceHolds(bindings: seq<InterfaceMethod>, symbolId: string, interfaces: seq<string>)
  {
    exists binding :: binding in bindings && binding.symbolId == symbolId &&
                      binding.interfaceId in interfaces
  }

  predicate PropertiesHold(symbol: Symbol, selector: Match)
  {
    && (selector.exported.Some? ==> selector.exported.value == symbol.exported)
    && (selector.hasContext.Some? ==> selector.hasContext.value == (|symbol.contextIndexes| > 0))
    && (selector.returnsError.Some? ==> selector.returnsError.value == (|symbol.errorIndexes| > 0))
    && (selector.ownership == "" || selector.ownership == OWNERSHIP_ANY || selector.ownership == symbol.ownership)
  }

  function ReceiverOf(symbol: Symbol): string
  {
    if symbol.receiver.Some? then symbol.receiver.value else ""
  }

  function FunctionName(symbol: Symbol): string
  {
    if symbol.kind.FunctionKind? then symbol.name else ""
  }

  function MethodName(symbol: Symbol): string
  {
    if symbol.kind.MethodKind? then symbol.name else ""
  }

  datatype Field = Field(patterns: seq<string>, value: string)

  function GlobFields(symbol: Symbol, selector: Match): seq<Field>
  {
    [Field(selector.packages, symbol.importPath), Field(selector.files, symbol.file),
     Field(selector.functions, FunctionName(symbol)), Field(selector.methods, MethodName(symbol)),
     Field(selector.receivers, ReceiverOf(symbol))]
  }

  /** Selector fields are conditions that must all hold. */
  ghost predicate Holds(matcher: SegmentMatcher, bindings: seq<InterfaceMethod>, symbol: Symbol, selector: Match)
  {
    && FieldHolds(matcher, selector.packages, symbol.importPath)
    && FieldHolds(matcher, selector.files, symbol.file)
    && FieldHolds(matcher, selector.functions, FunctionName(symbol))
    && FieldHolds(matcher, selector.methods, MethodName(symbol))
    && FieldHolds(matcher, selector.receivers, ReceiverOf(symbol))
    && (|selector.symbols| == 0 || symbol.id in selector.symbols)
    && (|selector.implements| == 0 || InterfaceHolds(bindings, symbol.id, selector.implements))
    && PropertiesHold(symbol, selector)
  }

  function AllPatterns(selector: Match): seq<string>
  {
    selector.packages + selector.files + selector.functions + selector.methods + selector.receivers
  }

  ghost function FirstInvalid(matcher: SegmentMatcher, patterns: seq<string>): Option<string>
  {
    if |patterns| == 0 then None
    else if !ValidPattern(matcher, patterns[0]) then Some(patterns[0])
    else FirstInvalid(matcher, patterns[1..])
  }

  lemma {:induction false} FirstInvalidExists(matcher: SegmentMatcher, patterns: seq<string>)
    ensures FirstInvalid(matcher, patterns).Some? <==>
            exists pattern :: pattern in patterns && !ValidPattern(matcher, pattern)
  {
    if |patterns| == 0 {
    } else {
      FirstInvalidExists(matcher, patterns[1..]);
      assert patterns == [patterns[0]] + patterns[1..];
    }
  }

  lemma {:induction false} FirstInvalidOfConcat(matcher: SegmentMatcher, a: seq<string>, b: seq<string>)
    ensures FirstInvalid(matcher, a + b) ==
            if FirstInvalid(matcher, a).Some? then FirstInvalid(matcher, a) else FirstInvalid(matcher, b)
  {
    if |a| == 0 {
      assert a + b == b;
    } else {
      FirstInvalidOfConcat(matcher, a[1..], b);
      assert (a + b)[1..] == a[1..] + b;
    }
  }

  ghost function MatchesSpec(matcher: SegmentMatcher, bindings: seq<InterfaceMethod>, symbol: Symbol, selector: Match)
    : Outcome
  {
    match FirstInvalid(matcher, AllPatterns(selector))
    case Some(pattern) => BadPattern(pattern)
    case None => Answer(Holds(matcher, bindings, symbol, selector))
  }

  // --------------------------------------------------------------------------------- the code

  method MatchesPatterns(matcher: SegmentMatcher, patterns: seq<string>, value: string) returns (outcome: Outcome)
    ensures outcome == match FirstInvalid(matcher, patterns)
                       case Some(pattern) => BadPattern(pattern)
                       case None => Answer(FieldHolds(matcher, patterns, value))
  {
    if |patterns| == 0 {
      return Answer(true);
    }
    var matched := false;
    for k := 0 to |patterns|
      invariant FirstInvalid(matcher, patterns) == FirstInvalid(matcher, patterns[k..])
      invariant matched <==> value != "" && exists i :: 0 <= i < k && PatternHolds(matcher, patterns[i], value)
    {
      assert patterns[k..][1..] == patterns[k + 1..];
      var result, _ := Glob(matcher, patterns[k], value);
      if result.InvalidGlob? {
        return BadPattern(patterns[k]);
      }
      matched := matched || (result.value && value != "");
    }
    return Answer(matched);
  }

  method MatchesGlobFields(matcher: SegmentMatcher, symbol: Symbol, selector: Match) returns (outcome: Outcome)
    ensures outcome == match FirstInvalid(matcher, AllPatterns(selector))
                       case Some(pattern) => BadPattern(pattern)
                       case None => Answer(forall field :: field in GlobFields(symbol, selector) ==>
                                                             FieldHolds(matcher, field.patterns, field.value))
  {
    var fields := GlobFields(symbol, selector);
    var matched := true;
    PatternsOfFields(symbol, selector);
    for k := 0 to |fields|
      invariant FirstInvalid(matcher, AllPatterns(selector)) == FirstInvalid(matcher, Flatten(fields[k..]))
      invariant matched <==> forall i :: 0 <= i < k ==> FieldHolds(matcher, fields[i].patterns, fields[i].value)
    {
      assert fields[k..][1..] == fields[k + 1..];
      FirstInvalidOfConcat(matcher, fields[k].patterns, Flatten(fields[k + 1..]));
      var outcome := MatchesPatterns(matcher, fields[k].patterns, fields[k].value);
      if outcome.BadPattern? {
        return outcome;
      }
      matched := matched && outcome.matched;
    }
    return Answer(matched);
  }

  function Flatten(fields: seq<Field>): seq<string>
  {
    if |fields| == 0 then [] else fields[0].patterns + Flatten(fields[1..])
  }

  lemma PatternsOfFields(symbol: Symbol, selector: Match)
    ensures Flatten(GlobFields(symbol, selector)) == AllPatterns(selector)
  {
    var fields := GlobFields(symbol, selector);
    assert Flatten(fields[5..]) == [];
    assert Flatten(fields[4..]) == selector.receivers;
    assert Flatten(fields[3..]) == selector.methods + selector.receivers;
    assert Flatten(fields[2..]) == selector.functions + selector.methods + selector.receivers;
    assert Flatten(fields[1..]) == selector.files + selector.functions + selector.methods + selector.receivers;
    assert fields[0..] == fields;
  }

  method MatchesInterfaceMethod(bindings: seq<InterfaceMethod>, symbolId: string, interfaces: seq<string>)
    returns (found: bool)
    ensures found <==> InterfaceHolds(bindings, symbolId, interfaces)
  {
    for k := 0 to |bindings|
      invariant forall i :: 0 <= i < k ==>
                  !(bindings[i].symbolId == symbolId && bindings[i].interfaceId in interfaces)
    {
      var binding := bindings[k];
      if binding.symbolId == symbolId && binding.interfaceId in interfaces {
        assert binding in bindings;
        return true;
      }
    }
    return false;
  }

  method Matches(matcher: SegmentMatcher, bindings: seq<InterfaceMethod>, symbol: Symbol, selector: Match)
    returns (outcome: Outcome)
    ensures outcome == MatchesSpec(matcher, bindings, symbol, selector)
  {
    outcome := MatchesGlobFields(matcher, symbol, selector);
    if outcome.BadPattern? {
      return;
    }
    var fields := GlobFields(symbol, selector);
    assert outcome.matched <==> forall i :: 0 <= i < 5 ==> FieldHolds(matcher, fields[i].patterns, fields[i].value) by {
      assert forall field :: field in fields <==> exists i :: 0 <= i < 5 && fields[i] == field;
    }
    var matched := outcome.matched;
    if |selector.symbols| > 0 {
      matched := matched && symbol.id in selector.symbols;
    }
    if |selector.implements| > 0 {
      var implemented := MatchesInterfaceMethod(bindings, symbol.id, selector.implements);
      matched := matched && implemented;
    }
    return Answer(matched && PropertiesHold(symbol, selector));
  }
}
