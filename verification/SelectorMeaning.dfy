module SelectorMeaning {
  // What a selector selects, field by field (internal/resolve/match.go).

  import opened Globs
  import opened Matching
  import opened Policies

  // ------------------------------------------------------------------------------- segments

  function Joined(parts: seq<string>): string
  {
    if |parts| == 0 then "" else if |parts| == 1 then parts[0] else parts[0] + "/" + Joined(parts[1..])
  }

  lemma {:induction false} SplitFromMeaning(s: string, start: nat, i: nat)
    requires start <= i <= |s| && forall k :: start <= k < i ==> s[k] != '/'
    ensures Joined(SplitFrom(s, start, i)) == s[start..]
    ensures forall part :: part in SplitFrom(s, start, i) ==> '/' !in part
    decreases |s| - i
  {
    if i == |s| {
    } else if s[i] == '/' {
      var rest := SplitFrom(s, i + 1, i + 1);
      SplitFromMeaning(s, i + 1, i + 1);
      assert ([s[start..i]] + rest)[1..] == rest;
      assert s[start..i] + "/" + s[i + 1..] == s[start..];
    } else {
      SplitFromMeaning(s, start, i + 1);
    }
  }

  /** The only way to join parts without slashes to this text. */
  lemma SplitMeaning(s: string, parts: seq<string>)
    ensures parts == Split(s) <==> |parts| > 0 && Joined(parts) == s && forall part :: part in parts ==> '/' !in part
  {
    SplitFromMeaning(s, 0, 0);
    assert s[0..] == s;
    if |parts| > 0 && Joined(parts) == s && forall part :: part in parts ==> '/' !in part {
      SameParts(parts, Split(s));
    }
  }

  lemma {:induction false} SameParts(a: seq<string>, b: seq<string>)
    requires |a| > 0 && |b| > 0 && Joined(a) == Joined(b)
    requires forall part :: part in a || part in b ==> '/' !in part
    ensures a == b
    decreases |a|
  {
    SameHead(a, b);
    assert a == [a[0]] + a[1..] && b == [b[0]] + b[1..];
    if |a| == 1 {
    } else {
      assert Joined(a)[|a[0]| + 1..] == Joined(a[1..]) && Joined(b)[|b[0]| + 1..] == Joined(b[1..]);
      SameParts(a[1..], b[1..]);
    }
  }

  function SlashAt(s: string): nat
  {
    if |s| == 0 || s[0] == '/' then 0 else SlashAt(s[1..]) + 1
  }

  lemma {:induction false} SlashIsAt(s: string, n: nat)
    requires n <= |s| && (forall k :: 0 <= k < n ==> s[k] != '/') && (n == |s| || s[n] == '/')
    ensures SlashAt(s) == n
  {
    if n == 0 {
    } else {
      SlashIsAt(s[1..], n - 1);
    }
  }

  lemma HeadEnds(parts: seq<string>)
    requires |parts| > 0 && '/' !in parts[0]
    ensures var s := Joined(parts);
            && |parts[0]| == SlashAt(s) <= |s| && parts[0] == s[..SlashAt(s)]
            && (|parts| == 1 <==> SlashAt(s) == |s|)
  {
    var s := Joined(parts);
    assert s[..|parts[0]|] == parts[0];
    assert forall k :: 0 <= k < |parts[0]| ==> s[k] == parts[0][k];
    SlashIsAt(s, |parts[0]|);
  }

  lemma SameHead(a: seq<string>, b: seq<string>)
    requires |a| > 0 && |b| > 0 && Joined(a) == Joined(b)
    requires '/' !in a[0] && '/' !in b[0]
    ensures a[0] == b[0] && (|a| == 1 <==> |b| == 1)
  {
    hide Joined;
    HeadEnds(a);
    HeadEnds(b);
  }

  // ---------------------------------------------------------------------------------- globs

  /** The cuts assign every part of the pattern its segments: `**` any run, another part one that it matches. */
  ghost predicate Assigns(matcher: SegmentMatcher, parts: seq<string>, values: seq<string>, cuts: seq<nat>)
  {
    && |cuts| == |parts| + 1 && cuts[0] == 0 && cuts[|parts|] == |values|
    && forall k :: 0 <= k < |parts| ==> Takes(matcher, parts[k], values, cuts[k], cuts[k + 1])
  }

  ghost predicate Takes(matcher: SegmentMatcher, part: string, values: seq<string>, from: nat, to: nat)
  {
    && from <= to <= |values|
    && (part != "**" ==> from < |values| && to == from + 1 && matcher.matches(part, values[from]))
  }

  ghost predicate GlobHolds(matcher: SegmentMatcher, pattern: string, value: string)
  {
    exists cuts :: Assigns(matcher, Split(pattern), Split(value), cuts)
  }

  lemma CutsMeaning(matcher: SegmentMatcher, parts: seq<string>, values: seq<string>, cuts: seq<nat>)
    ensures Covers(matcher, parts, values, 0, 0, cuts) <==> Assigns(matcher, parts, values, cuts)
  {
    forall part, from, to
      ensures Consumes(matcher, part, values, from, to) <==> Takes(matcher, part, values, from, to)
    {
    }
    hide Consumes, Takes;
  }

  lemma GlobMeaning(matcher: SegmentMatcher, pattern: string, value: string)
    ensures PatternHolds(matcher, pattern, value) <==> GlobHolds(matcher, pattern, value)
  {
    hide Assigns, Covers, Split;
    forall cuts
      ensures Covers(matcher, Split(pattern), Split(value), 0, 0, cuts) <==>
              Assigns(matcher, Split(pattern), Split(value), cuts)
    {
      CutsMeaning(matcher, Split(pattern), Split(value), cuts);
    }
  }

  // ------------------------------------------------------------------------------ selectors

  ghost predicate SomeHolds(matcher: SegmentMatcher, patterns: seq<string>, value: string)
  {
    value != "" && exists pattern :: pattern in patterns && GlobHolds(matcher, pattern, value)
  }

  /** A list that is not empty is a condition: on the package, the file, and, of its kind, the name or receiver. */
  ghost predicate Selects(matcher: SegmentMatcher, bindings: seq<InterfaceMethod>, symbol: Symbol, selector: Match)
  {
    && (|selector.packages| > 0 ==> SomeHolds(matcher, selector.packages, symbol.importPath))
    && (|selector.files| > 0 ==> SomeHolds(matcher, selector.files, symbol.file))
    && (|selector.functions| > 0 ==>
          symbol.kind == FunctionKind && SomeHolds(matcher, selector.functions, symbol.name))
    && (|selector.methods| > 0 ==> symbol.kind == MethodKind && SomeHolds(matcher, selector.methods, symbol.name))
    && (|selector.receivers| > 0 ==>
          symbol.receiver.Some? && SomeHolds(matcher, selector.receivers, symbol.receiver.value))
    && (|selector.symbols| > 0 ==> symbol.id in selector.symbols)
    && (|selector.implements| > 0 ==>
          exists b :: b in bindings && b.symbolId == symbol.id && b.interfaceId in selector.implements)
    && (selector.exported.None? || selector.exported == Some(symbol.exported))
    && (selector.hasContext.None? || selector.hasContext == Some(|symbol.contextIndexes| != 0))
    && (selector.returnsError.None? || selector.returnsError == Some(|symbol.errorIndexes| != 0))
    && selector.ownership in {"", "any", symbol.ownership}
  }

  ghost predicate IsMalformed(matcher: SegmentMatcher, pattern: string)
  {
    exists part :: part in Split(pattern) && part != "**" && !matcher.valid(part)
  }

  /** The patterns that must be well-formed, whether or not anything is compared with them. */
  ghost predicate HasMalformed(matcher: SegmentMatcher, selector: Match)
  {
    exists pattern :: IsMalformed(matcher, pattern) &&
      (|| pattern in selector.packages || pattern in selector.files || pattern in selector.functions
       || pattern in selector.methods || pattern in selector.receivers)
  }

  lemma FieldMeaning(matcher: SegmentMatcher, patterns: seq<string>, value: string)
    ensures FieldHolds(matcher, patterns, value) <==> (|patterns| > 0 ==> SomeHolds(matcher, patterns, value))
  {
    hide PatternHolds, GlobHolds;
    forall pattern
      ensures PatternHolds(matcher, pattern, value) <==> GlobHolds(matcher, pattern, value)
    {
      GlobMeaning(matcher, pattern, value);
    }
  }

  lemma NothingHolds(matcher: SegmentMatcher, patterns: seq<string>)
    ensures !SomeHolds(matcher, patterns, "")
  {
  }

  lemma MalformedMeaning(matcher: SegmentMatcher, selector: Match)
    ensures FirstInvalid(matcher, AllPatterns(selector)).Some? <==> HasMalformed(matcher, selector)
  {
    hide FirstInvalid, Split;
    FirstInvalidExists(matcher, AllPatterns(selector));
    forall pattern
      ensures !ValidPattern(matcher, pattern) <==> IsMalformed(matcher, pattern)
    {
    }
    hide ValidPattern, IsMalformed;
    var all := AllPatterns(selector);
    assert forall pattern :: pattern in AllPatterns(selector) <==>
             || pattern in selector.packages || pattern in selector.files || pattern in selector.functions
             || pattern in selector.methods || pattern in selector.receivers;
    if pattern :| pattern in all && !ValidPattern(matcher, pattern) {
      assert IsMalformed(matcher, pattern) && HasMalformed(matcher, selector);
    }
    if HasMalformed(matcher, selector) {
      var pattern :| IsMalformed(matcher, pattern) &&
        (|| pattern in selector.packages || pattern in selector.files || pattern in selector.functions
         || pattern in selector.methods || pattern in selector.receivers);
      assert pattern in all && !ValidPattern(matcher, pattern);
    }
  }

  lemma SelectionMeaning(matcher: SegmentMatcher, bindings: seq<InterfaceMethod>, symbol: Symbol, selector: Match)
    ensures Holds(matcher, bindings, symbol, selector) <==> Selects(matcher, bindings, symbol, selector)
  {
    hide FieldHolds, SomeHolds, PropertiesHold;
    FieldMeaning(matcher, selector.packages, symbol.importPath);
    FieldMeaning(matcher, selector.files, symbol.file);
    FieldMeaning(matcher, selector.functions, FunctionName(symbol));
    FieldMeaning(matcher, selector.methods, MethodName(symbol));
    FieldMeaning(matcher, selector.receivers, ReceiverOf(symbol));
    NothingHolds(matcher, selector.functions);
    NothingHolds(matcher, selector.methods);
    NothingHolds(matcher, selector.receivers);
    PropertiesMeaning(symbol, selector);
  }

  lemma PropertiesMeaning(symbol: Symbol, selector: Match)
    ensures PropertiesHold(symbol, selector) <==>
            && (selector.exported.None? || selector.exported == Some(symbol.exported))
            && (selector.hasContext.None? || selector.hasContext == Some(|symbol.contextIndexes| != 0))
            && (selector.returnsError.None? || selector.returnsError == Some(|symbol.errorIndexes| != 0))
            && selector.ownership in {"", "any", symbol.ownership}
  {
  }

  /** A selector is refused exactly if some pattern is malformed; otherwise it answers whether it selects. */
  lemma SelectorIsMeant(matcher: SegmentMatcher, bindings: seq<InterfaceMethod>, symbol: Symbol, selector: Match)
    ensures var outcome := MatchesSpec(matcher, bindings, symbol, selector);
            && (outcome.BadPattern? <==> HasMalformed(matcher, selector))
            && (outcome.Answer? ==> outcome.matched == Selects(matcher, bindings, symbol, selector))
  {
    hide Holds, Selects, FirstInvalid, AllPatterns, HasMalformed;
    MalformedMeaning(matcher, selector);
    SelectionMeaning(matcher, bindings, symbol, selector);
  }
}
