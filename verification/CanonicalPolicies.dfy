/**
 The canonical policy form (internal/lockfile/policy.go) that the lock digest is built on, and why it may
 stand for the policy: resolution cannot tell the two apart.
 */
module CanonicalPolicies {
  import opened Globs
  import opened Matching
  import opened Orders
  import opened Policies
  import opened Resolution
  import opened ResolutionProperties
  import opened SelectorChecks

  // ------------------------------------------------------------------------------ canonical form

  function CanonicalMatch(selector: Match): Match
  {
    selector.(
      packages := CanonicalSet(selector.packages), files := CanonicalSet(selector.files),
      symbols := CanonicalSet(selector.symbols), functions := CanonicalSet(selector.functions),
      receivers := CanonicalSet(selector.receivers), methods := CanonicalSet(selector.methods),
      implements := CanonicalSet(selector.implements))
  }

  function CanonicalRule(rule: Rule): Rule
  {
    rule.(
      selector := CanonicalMatch(rule.selector),
      exclude := if rule.exclude.Some? then Some(CanonicalMatch(rule.exclude.value)) else None,
      attributes := SortBy(rule.attributes, AttributeKey))
  }

  function CanonicalExclusion(exclusion: Exclusion): Exclusion
  {
    exclusion.(selector := CanonicalMatch(exclusion.selector))
  }

  function CanonicalRules(rules: seq<Rule>): (r: seq<Rule>)
    ensures |r| == |rules| && forall i :: 0 <= i < |rules| ==> r[i] == CanonicalRule(rules[i])
  {
    seq(|rules|, i requires 0 <= i < |rules| => CanonicalRule(rules[i]))
  }

  function CanonicalExclusions(exclusions: seq<Exclusion>): (r: seq<Exclusion>)
    ensures |r| == |exclusions| && forall i :: 0 <= i < |exclusions| ==> r[i] == CanonicalExclusion(exclusions[i])
  {
    seq(|exclusions|, i requires 0 <= i < |exclusions| => CanonicalExclusion(exclusions[i]))
  }

  function CanonicalPolicy(policy: Policy): Policy
  {
    policy.(
      denyPatterns := CanonicalSet(policy.denyPatterns),
      packages := CanonicalSet(policy.packages), buildTags := CanonicalSet(policy.buildTags),
      rules := SortBy(CanonicalRules(policy.rules), RuleId),
      exclusions := SortBy(CanonicalExclusions(policy.exclusions), ExclusionId))
  }

  // --------------------------------------------------------------------------------- the code

  /** `slices.Sort` followed by `slices.Compact` on a clone. */
  method Canonicalize(values: seq<string>) returns (r: seq<string>)
    ensures r == CanonicalSet(values)
  {
    var key := (x: string) => x;
    var sorted := Sort(values, key);
    SameElements(sorted, values);
    assert SortedBy(sorted, x => x) by {
      assert forall i, j :: 0 <= i < j < |sorted| ==> AtMost(key(sorted[i]), key(sorted[j]));
    }
    CompactIncreases(sorted);
    r := Compact(sorted);
    CanonicalSetContains(values);
    IncreasingIsUnique(r, CanonicalSet(values));
  }

  method CanonicalizeMatch(selector: Match) returns (r: Match)
    ensures r == CanonicalMatch(selector)
  {
    hide CanonicalSet;
    var packages := Canonicalize(selector.packages);
    var files := Canonicalize(selector.files);
    var symbols := Canonicalize(selector.symbols);
    var functions := Canonicalize(selector.functions);
    var receivers := Canonicalize(selector.receivers);
    var methods := Canonicalize(selector.methods);
    var implements := Canonicalize(selector.implements);
    r := selector.(packages := packages, files := files, symbols := symbols, functions := functions,
                   receivers := receivers, methods := methods, implements := implements);
  }

  /**
   `canonicalPolicy`: the slices are cloned, their elements rewritten in place, then sorted. Unique IDs
   and attribute keys make the outcome independent of how equal keys would be ordered.
   */
  method CanonicalizePolicy(policy: Policy) returns (r: Policy)
    requires UniqueIdentities(policy)
    ensures r == CanonicalPolicy(policy)
  {
    hide CanonicalSet, CanonicalMatch, SortBy;
    var denyPatterns := Canonicalize(policy.denyPatterns);
    var packages := Canonicalize(policy.packages);
    var buildTags := Canonicalize(policy.buildTags);
    var rules := CanonicalizeRules(policy.rules);
    var exclusions := CanonicalizeExclusions(policy.exclusions);
    r := policy.(denyPatterns := denyPatterns, packages := packages, buildTags := buildTags,
                 rules := rules, exclusions := exclusions);
  }

  method CanonicalizeRules(original: seq<Rule>) returns (rules: seq<Rule>)
    requires DistinctKeys(original, RuleId)
    requires forall rule :: rule in original ==> DistinctKeys(rule.attributes, AttributeKey)
    ensures rules == SortBy(CanonicalRules(original), RuleId)
  {
    hide CanonicalMatch, SortBy, Less;
    rules := original;
    for i := 0 to |rules|
      invariant |rules| == |original|
      invariant forall k :: 0 <= k < i ==> rules[k] == CanonicalRule(original[k])
      invariant forall k :: i <= k < |rules| ==> rules[k] == original[k]
    {
      var rule := rules[i];
      assert original[i] in original;
      var selector := CanonicalizeMatch(rule.selector);
      rule := rule.(selector := selector);
      if rule.exclude.Some? {
        var exclude := CanonicalizeMatch(rule.exclude.value);
        rule := rule.(exclude := Some(exclude));
      }
      var attributes := SortUnique(rule.attributes, AttributeKey);
      rules := rules[i := rule.(attributes := attributes)];
    }
    assert rules == CanonicalRules(original);
    CanonicalRulesKeepIds(original);
    rules := SortUnique(rules, RuleId);
  }

  method CanonicalizeExclusions(original: seq<Exclusion>) returns (exclusions: seq<Exclusion>)
    requires DistinctKeys(original, ExclusionId)
    ensures exclusions == SortBy(CanonicalExclusions(original), ExclusionId)
  {
    hide CanonicalMatch, SortBy, Less;
    exclusions := original;
    for i := 0 to |exclusions|
      invariant |exclusions| == |original|
      invariant forall k :: 0 <= k < i ==> exclusions[k] == CanonicalExclusion(original[k])
      invariant forall k :: i <= k < |exclusions| ==> exclusions[k] == original[k]
    {
      var selector := CanonicalizeMatch(exclusions[i].selector);
      exclusions := exclusions[i := exclusions[i].(selector := selector)];
    }
    assert exclusions == CanonicalExclusions(original);
    CanonicalExclusionsKeepIds(original);
    exclusions := SortUnique(exclusions, ExclusionId);
  }

  lemma CanonicalRulesKeepIds(rules: seq<Rule>)
    ensures DistinctKeys(CanonicalRules(rules), RuleId) <==> DistinctKeys(rules, RuleId)
    ensures SortedBy(CanonicalRules(rules), RuleId) <==> SortedBy(rules, RuleId)
  {
    hide CanonicalMatch, SortBy, Less;
    assert forall i :: 0 <= i < |rules| ==> RuleId(CanonicalRules(rules)[i]) == RuleId(rules[i]);
    assert forall i :: 0 <= i < |rules| ==> RuleId(rules[i]) == RuleId(CanonicalRules(rules)[i]);
  }

  lemma CanonicalExclusionsKeepIds(exclusions: seq<Exclusion>)
    ensures DistinctKeys(CanonicalExclusions(exclusions), ExclusionId) <==> DistinctKeys(exclusions, ExclusionId)
    ensures SortedBy(CanonicalExclusions(exclusions), ExclusionId) <==> SortedBy(exclusions, ExclusionId)
  {
    hide CanonicalMatch, SortBy, Less;
    assert forall i :: 0 <= i < |exclusions| ==>
             ExclusionId(CanonicalExclusions(exclusions)[i]) == ExclusionId(exclusions[i]);
    assert forall i :: 0 <= i < |exclusions| ==>
             ExclusionId(exclusions[i]) == ExclusionId(CanonicalExclusions(exclusions)[i]);
  }

  // ------------------------------------------------------------------- selectors keep their meaning

  lemma SameFieldMeaning(matcher: SegmentMatcher, patterns: seq<string>, value: string)
    ensures FieldHolds(matcher, CanonicalSet(patterns), value) <==> FieldHolds(matcher, patterns, value)
  {
    hide CanonicalSet, PatternHolds, Increasing;
    CanonicalSetContains(patterns);
  }

  lemma SameInterfaceMeaning(bindings: seq<InterfaceMethod>, symbolId: string, interfaces: seq<string>)
    ensures InterfaceHolds(bindings, symbolId, CanonicalSet(interfaces)) <==>
            InterfaceHolds(bindings, symbolId, interfaces)
  {
    hide CanonicalSet, Increasing;
    CanonicalSetContains(interfaces);
  }

  lemma SameValidity(matcher: SegmentMatcher, selector: Match)
    ensures FirstInvalid(matcher, AllPatterns(CanonicalMatch(selector))).Some? <==>
            FirstInvalid(matcher, AllPatterns(selector)).Some?
  {
    hide ValidPattern, CanonicalSet, FirstInvalid, Increasing;
    CanonicalSetContains(selector.packages);
    CanonicalSetContains(selector.files);
    CanonicalSetContains(selector.functions);
    CanonicalSetContains(selector.methods);
    CanonicalSetContains(selector.receivers);
    FirstInvalidExists(matcher, AllPatterns(selector));
    FirstInvalidExists(matcher, AllPatterns(CanonicalMatch(selector)));
    assert forall pattern :: pattern in AllPatterns(selector) <==> pattern in AllPatterns(CanonicalMatch(selector));
  }

  lemma SameSelection(matcher: SegmentMatcher, bindings: seq<InterfaceMethod>, symbol: Symbol, selector: Match)
    ensures var before := MatchesSpec(matcher, bindings, symbol, selector);
            var after := MatchesSpec(matcher, bindings, symbol, CanonicalMatch(selector));
            && (before.Answer? <==> after.Answer?)
            && (before.Answer? ==> before == after)
  {
    hide FieldHolds, InterfaceHolds, CanonicalSet, FirstInvalid, Increasing;
    CanonicalSetContains(selector.symbols);
    CanonicalSetContains(selector.implements);
    SameValidity(matcher, selector);
    SameFieldMeaning(matcher, selector.packages, symbol.importPath);
    SameFieldMeaning(matcher, selector.files, symbol.file);
    SameFieldMeaning(matcher, selector.functions, FunctionName(symbol));
    SameFieldMeaning(matcher, selector.methods, MethodName(symbol));
    SameFieldMeaning(matcher, selector.receivers, ReceiverOf(symbol));
    SameInterfaceMeaning(bindings, symbol.id, selector.implements);
  }

  lemma SameHit(ctx: Context, symbol: Symbol, selector: Match)
    ensures Hit(ctx, symbol, CanonicalMatch(selector)) == Hit(ctx, symbol, selector)
  {
    hide MatchesSpec, CanonicalMatch;
    SameSelection(ctx.matcher, ctx.bindings, symbol, selector);
  }

  // -------------------------------------------------------------------- rules keep their behavior

  lemma {:induction false} PlansOf(attributes: seq<AttributeRule>)
    ensures |AttributePlans(attributes)| == |attributes|
    ensures forall i :: 0 <= i < |attributes| ==> AttributePlans(attributes)[i] == AttributePlanOf(attributes[i])
  {
    if |attributes| == 0 {
    } else {
      PlansOf(attributes[..|attributes| - 1]);
    }
  }

  lemma PlansContain(attributes: seq<AttributeRule>)
    ensures forall plan :: plan in AttributePlans(attributes) <==>
                           exists a :: a in attributes && AttributePlanOf(a) == plan
    ensures DistinctKeys(attributes, AttributeKey) ==> DistinctKeys(AttributePlans(attributes), PlanKey)
    ensures SortedBy(attributes, AttributeKey) ==> SortedBy(AttributePlans(attributes), PlanKey)
  {
    hide AttributePlans, Less;
    PlansOf(attributes);
    var plans := AttributePlans(attributes);
    assert forall i :: 0 <= i < |plans| ==> PlanKey(plans[i]) == AttributeKey(attributes[i]);
    forall a | a in attributes
      ensures AttributePlanOf(a) in plans
    {
      var i :| 0 <= i < |attributes| && attributes[i] == a;
      assert plans[i] == AttributePlanOf(a);
    }
    forall plan | plan in plans
      ensures exists a :: a in attributes && AttributePlanOf(a) == plan
    {
      var i :| 0 <= i < |plans| && plans[i] == plan;
      assert attributes[i] in attributes;
    }
  }

  lemma SamePlans(attributes: seq<AttributeRule>)
    requires DistinctKeys(attributes, AttributeKey)
    ensures SortBy(AttributePlans(SortBy(attributes, AttributeKey)), PlanKey) ==
            SortBy(AttributePlans(attributes), PlanKey)
  {
    hide AttributePlans, Less, DistinctKeys;
    var sorted := SortBy(attributes, AttributeKey);
    SortBySorts(attributes, AttributeKey);
    SameElements(sorted, attributes);
    DistinctKeysOfPermutation(attributes, sorted, AttributeKey);
    PlansContain(attributes);
    PlansContain(sorted);
    SameSort(AttributePlans(sorted), AttributePlans(attributes), PlanKey);
  }

  lemma SameProposal(defaults: Defaults, rule: Rule, symbol: Symbol)
    requires DistinctKeys(rule.attributes, AttributeKey)
    ensures Propose(defaults, CanonicalRule(rule), symbol) == Propose(defaults, rule, symbol)
  {
    hide AttributePlans, SortBy, SpanName, CanonicalMatch, DistinctKeys;
    SamePlans(rule.attributes);
  }

  // -------------------------------------------------------------------- every loop agrees with itself

  lemma CanonicalPrefix(rules: seq<Rule>)
    requires |rules| > 0
    ensures CanonicalRules(rules)[..|rules| - 1] == CanonicalRules(rules[..|rules| - 1])
  {
  }

  lemma {:induction false} SameRuleTrace(ctx: Context, symbol: Symbol, start: RuleTrace, rules: seq<Rule>)
    requires start.candidates == []
    ensures var before := TraceRules(ctx, symbol, start, rules);
            TraceRules(ctx, symbol, start, CanonicalRules(rules)) ==
            before.(candidates := CanonicalRules(before.candidates))
  {
    hide Hit, CanonicalMatch, SortBy;
    if |rules| == 0 {
    } else {
      var init, last := rules[..|rules| - 1], rules[|rules| - 1];
      SameRuleTrace(ctx, symbol, start, init);
      CanonicalPrefix(rules);
      SameHit(ctx, symbol, last.selector);
      if last.exclude.Some? {
        SameHit(ctx, symbol, last.exclude.value);
      }
      var candidates := TraceRules(ctx, symbol, start, init).candidates;
      assert CanonicalRules(candidates + [last]) == CanonicalRules(candidates) + [CanonicalRule(last)];
    }
  }

  lemma {:induction false} SameExclusionTrace(ctx: Context, symbol: Symbol, any: bool, start: ExclusionTrace,
                                              exclusions: seq<Exclusion>)
    ensures TraceExclusions(ctx, symbol, any, start, CanonicalExclusions(exclusions)) ==
            TraceExclusions(ctx, symbol, any, start, exclusions)
  {
    hide Hit, CanonicalMatch;
    if |exclusions| == 0 {
    } else {
      var init, last := exclusions[..|exclusions| - 1], exclusions[|exclusions| - 1];
      SameExclusionTrace(ctx, symbol, any, start, init);
      assert CanonicalExclusions(exclusions)[..|exclusions| - 1] == CanonicalExclusions(init);
      SameHit(ctx, symbol, last.selector);
    }
  }

  lemma SameChoice(defaults: Defaults, symbol: Symbol, candidates: seq<Rule>)
    requires forall rule :: rule in candidates ==> DistinctKeys(rule.attributes, AttributeKey)
    ensures Choose(defaults, symbol, CanonicalRules(candidates)) == Choose(defaults, symbol, candidates)
    ensures Ids(CanonicalRules(candidates)) == Ids(candidates)
  {
    hide Propose, ChooseProposal, CanonicalMatch, SortBy, DistinctKeys;
    var canonical := CanonicalRules(candidates);
    forall i | 0 <= i < |candidates|
      ensures Propose(defaults, canonical[i], symbol) == Propose(defaults, candidates[i], symbol)
      ensures canonical[i].id == candidates[i].id && canonical[i] in canonical && candidates[i] in candidates
    {
      assert candidates[i] in candidates;
      SameProposal(defaults, candidates[i], symbol);
    }
    assert Proposals(defaults, symbol, canonical) == Proposals(defaults, symbol, candidates);
    SameIds(candidates);
  }

  lemma SameIds(rules: seq<Rule>)
    ensures Ids(CanonicalRules(rules)) == Ids(rules)
  {
  }

  lemma {:induction false} CandidatesComeFromRules(ctx: Context, symbol: Symbol, start: RuleTrace, rules: seq<Rule>)
    requires start.candidates == []
    ensures forall rule :: rule in TraceRules(ctx, symbol, start, rules).candidates ==> rule in rules
  {
    hide Hit;
    TracedCandidates(ctx, symbol, start, rules);
    CandidatesContain(ctx, symbol, rules);
  }

  lemma SameSymbolTrace(ctx: Context, rules: seq<Rule>, exclusions: seq<Exclusion>, totals: Totals, symbol: Symbol)
    requires forall rule :: rule in rules ==> DistinctKeys(rule.attributes, AttributeKey)
    ensures TraceSymbol(ctx, CanonicalRules(rules), CanonicalExclusions(exclusions), totals, symbol) ==
            TraceSymbol(ctx, rules, exclusions, totals, symbol)
  {
    hide Hit, TraceRules, TraceExclusions, Choose, Ids, CanonicalMatch, SortBy, DistinctKeys;
    var start := RuleTrace([], totals.skipped, [], totals.matched);
    var trace := TraceRules(ctx, symbol, start, rules);
    SameRuleTrace(ctx, symbol, start, rules);
    CandidatesComeFromRules(ctx, symbol, start, rules);
    SameExclusionTrace(ctx, symbol, |trace.candidates| > 0, ExclusionTrace(trace.decisions, trace.skipped, false),
                       exclusions);
    SameChoice(ctx.defaults, symbol, trace.candidates);
    assert |trace.candidates| > 0 ==> CanonicalRules(trace.candidates)[0].id == trace.candidates[0].id;
  }

  lemma {:induction false} SameSymbolsTrace(ctx: Context, rules: seq<Rule>, exclusions: seq<Exclusion>, start: Totals,
                                            symbols: seq<Symbol>)
    requires forall rule :: rule in rules ==> DistinctKeys(rule.attributes, AttributeKey)
    ensures TraceSymbols(ctx, CanonicalRules(rules), CanonicalExclusions(exclusions), start, symbols) ==
            TraceSymbols(ctx, rules, exclusions, start, symbols)
  {
    hide TraceSymbol, CanonicalRules, CanonicalExclusions, DistinctKeys;
    if |symbols| == 0 {
    } else {
      var init, last := symbols[..|symbols| - 1], symbols[|symbols| - 1];
      SameSymbolsTrace(ctx, rules, exclusions, start, init);
      SameSymbolTrace(ctx, rules, exclusions, TraceSymbols(ctx, rules, exclusions, start, init), last);
    }
  }

  // ---------------------------------------------------------------------- selector diagnostics

  lemma SameAcceptance(ctx: Context, selector: Match)
    ensures Accepted(ctx, CanonicalMatch(selector)) == Accepted(ctx, selector)
  {
    hide MatchesSpec, CanonicalSet, Increasing;
    CanonicalSetContains(selector.symbols);
    SameSelection(ctx.matcher, ctx.bindings, ZERO_SYMBOL, selector);
  }

  lemma SameAcceptedSelectors(ctx: Context, rules: seq<Rule>, exclusions: seq<Exclusion>)
    ensures AcceptedSelectors(ctx, CanonicalRules(rules), CanonicalExclusions(exclusions)) ==
            AcceptedSelectors(ctx, rules, exclusions)
  {
    hide Accepted, CanonicalMatch, SortBy;
    forall i | 0 <= i < |rules|
      ensures AcceptedRule(ctx, CanonicalRules(rules)[i]) == AcceptedRule(ctx, rules[i])
    {
      SameAcceptance(ctx, rules[i].selector);
      if rules[i].exclude.Some? {
        SameAcceptance(ctx, rules[i].exclude.value);
      }
    }
    forall i | 0 <= i < |exclusions|
      ensures Accepted(ctx, CanonicalExclusions(exclusions)[i].selector) == Accepted(ctx, exclusions[i].selector)
    {
      SameAcceptance(ctx, exclusions[i].selector);
    }
    assert forall i :: 0 <= i < |rules| ==> CanonicalRules(rules)[i] in CanonicalRules(rules);
    assert forall i :: 0 <= i < |exclusions| ==> CanonicalExclusions(exclusions)[i] in CanonicalExclusions(exclusions);
  }

  // ------------------------------------------------------------------------------ main results

  lemma CanonicalSorts(policy: Policy)
    requires UniqueIdentities(policy)
    ensures SortBy(CanonicalPolicy(policy).rules, RuleId) == CanonicalRules(SortBy(policy.rules, RuleId))
    ensures SortBy(CanonicalPolicy(policy).exclusions, ExclusionId) ==
            CanonicalExclusions(SortBy(policy.exclusions, ExclusionId))
  {
    hide CanonicalMatch, CanonicalRule, CanonicalExclusion, Less, CanonicalSet;
    var rules := SortBy(policy.rules, RuleId);
    SortBySorts(policy.rules, RuleId);
    DistinctKeysOfPermutation(policy.rules, rules, RuleId);
    CanonicalRulesKeepIds(rules);
    CanonicalRulesKeepIds(policy.rules);
    SameCanonicalRules(rules, policy.rules);
    SortTwice(CanonicalRules(policy.rules), CanonicalRules(rules), RuleId);
    var exclusions := SortBy(policy.exclusions, ExclusionId);
    SortBySorts(policy.exclusions, ExclusionId);
    DistinctKeysOfPermutation(policy.exclusions, exclusions, ExclusionId);
    CanonicalExclusionsKeepIds(exclusions);
    CanonicalExclusionsKeepIds(policy.exclusions);
    SameCanonicalExclusions(exclusions, policy.exclusions);
    SortTwice(CanonicalExclusions(policy.exclusions), CanonicalExclusions(exclusions), ExclusionId);
  }

  lemma SortTwice<T(!new)>(s: seq<T>, sorted: seq<T>, key: T -> string)
    requires DistinctKeys(s, key) && DistinctKeys(sorted, key) && SortedBy(sorted, key)
    requires forall x :: x in s <==> x in sorted
    ensures SortBy(SortBy(s, key), key) == sorted
  {
    hide SortBy, SortedBy, DistinctKeys;
    var once := SortBy(s, key);
    var twice := SortBy(once, key);
    SortBySorts(s, key);
    SortBySorts(once, key);
    SameElements(once, s);
    SameElements(twice, once);
    DistinctKeysOfPermutation(s, once, key);
    DistinctKeysOfPermutation(once, twice, key);
    SortedByElements(twice, sorted, key);
  }

  lemma SameCanonicalRules(a: seq<Rule>, b: seq<Rule>)
    requires multiset(a) == multiset(b)
    ensures forall rule :: rule in CanonicalRules(b) <==> rule in CanonicalRules(a)
  {
    hide CanonicalRule;
    SameElements(a, b);
    CanonicalRulesContain(a);
    CanonicalRulesContain(b);
  }

  lemma CanonicalRulesContain(rules: seq<Rule>)
    ensures forall rule :: rule in CanonicalRules(rules) <==> exists r :: r in rules && CanonicalRule(r) == rule
  {
  }

  lemma SameCanonicalExclusions(a: seq<Exclusion>, b: seq<Exclusion>)
    requires multiset(a) == multiset(b)
    ensures forall e :: e in CanonicalExclusions(b) <==> e in CanonicalExclusions(a)
  {
    hide CanonicalExclusion;
    SameElements(a, b);
    CanonicalExclusionsContain(a);
    CanonicalExclusionsContain(b);
  }

  lemma CanonicalExclusionsContain(exclusions: seq<Exclusion>)
    ensures forall e :: e in CanonicalExclusions(exclusions) <==>
                        exists x :: x in exclusions && CanonicalExclusion(x) == e
  {
  }

  lemma {:induction false} SameRuleMatches(start: seq<Diagnostic>, rules: seq<Rule>, matched: set<string>,
                                           effective: set<string>)
    ensures RuleMatchDiagnostics(start, CanonicalRules(rules), matched, effective) ==
            RuleMatchDiagnostics(start, rules, matched, effective)
  {
    hide CanonicalMatch, SortBy;
    if |rules| == 0 {
    } else {
      SameRuleMatches(start, rules[..|rules| - 1], matched, effective);
      CanonicalPrefix(rules);
    }
  }

  lemma SameSortedResolution(ctx: Context, rules: seq<Rule>, exclusions: seq<Exclusion>, symbols: seq<Symbol>)
    requires forall rule :: rule in rules ==> DistinctKeys(rule.attributes, AttributeKey)
    ensures var before := ResolveSorted(ctx, [], rules, exclusions, symbols);
            var after := ResolveSorted(ctx, [], CanonicalRules(rules), CanonicalExclusions(exclusions), symbols);
            if AcceptedSelectors(ctx, rules, exclusions) then before == after
            else Rejected(before) && Rejected(after)
  {
    hide HasErrors, TraceSymbols, CheckSelectors, AcceptedSelectors, CanonicalRules, CanonicalExclusions,
         RuleMatchDiagnostics, SortDiagnostics, DistinctKeys;
    NoErrors();
    SelectorCheckMeaning(ctx, [], rules, exclusions);
    SelectorCheckMeaning(ctx, [], CanonicalRules(rules), CanonicalExclusions(exclusions));
    SameAcceptedSelectors(ctx, rules, exclusions);
    var start := Totals([], [], [], [], {}, {});
    SameSymbolsTrace(ctx, rules, exclusions, start, symbols);
    var totals := TraceSymbols(ctx, rules, exclusions, start, symbols);
    SameRuleMatches(totals.diagnostics, rules, totals.matched, totals.effective);
  }

  predicate Rejected(result: Resolved)
  {
    HasErrors(result.diagnostics) && result.plan == Plan([], []) && result.explanations == []
  }

  /**
   Resolving the canonical form of a valid policy gives the same result, except that a policy with an
   unusable selector may be rejected with different wording. (A valid policy enters resolution
   without diagnostics, because validation only reports errors.)
   */
  lemma CanonicalizationPreservesResolution(matcher: SegmentMatcher, policy: Policy, code: Option<CodeModel>)
    requires UniqueIdentities(policy)
    ensures var before := ResolveSpec(matcher, policy, [], code);
            var after := ResolveSpec(matcher, CanonicalPolicy(policy), [], code);
            before == after || (Rejected(before) && Rejected(after))
  {
    hide ResolveSorted, SortBy, CanonicalMatch, CanonicalSet, DistinctKeys, Rejected;
    NoErrors();
    if code.Some? {
      var ctx := ContextOf(matcher, code.value, policy.defaults);
      var rules, exclusions := SortBy(policy.rules, RuleId), SortBy(policy.exclusions, ExclusionId);
      CanonicalSorts(policy);
      SortBySorts(policy.rules, RuleId);
      SameElements(rules, policy.rules);
      SameSortedResolution(ctx, rules, exclusions, SortBy(code.value.symbols, SymbolIdOf));
    }
  }

  /** Policies that share a canonical form, and so a lock digest, select the same targets. */
  lemma EqualFormsResolveAlike(matcher: SegmentMatcher, first: Policy, second: Policy, code: Option<CodeModel>)
    requires UniqueIdentities(first) && UniqueIdentities(second)
    requires CanonicalPolicy(first) == CanonicalPolicy(second)
    ensures ResolveSpec(matcher, first, [], code).plan == ResolveSpec(matcher, second, [], code).plan
  {
    hide ResolveSpec, CanonicalPolicy, UniqueIdentities;
    CanonicalizationPreservesResolution(matcher, first, code);
    CanonicalizationPreservesResolution(matcher, second, code);
  }

  ghost predicate SameValues(first: seq<string>, second: seq<string>)
  {
    forall x :: x in first <==> x in second
  }

  /** Every list has the same values, in any order and repetition, and the other fields are equal. */
  ghost predicate SameSelector(first: Match, second: Match)
  {
    && SameValues(first.packages, second.packages)
    && SameValues(first.files, second.files)
    && SameValues(first.symbols, second.symbols)
    && SameValues(first.functions, second.functions)
    && SameValues(first.receivers, second.receivers)
    && SameValues(first.methods, second.methods)
    && SameValues(first.implements, second.implements)
    && first.exported == second.exported && first.hasContext == second.hasContext
    && first.returnsError == second.returnsError && first.ownership == second.ownership
  }

  ghost predicate SameRule(first: Rule, second: Rule)
  {
    && first.id == second.id && first.description == second.description
    && first.span == second.span && first.recordErrors == second.recordErrors
    && SameSelector(first.selector, second.selector)
    && (first.exclude.Some? <==> second.exclude.Some?)
    && (first.exclude.Some? && second.exclude.Some? ==> SameSelector(first.exclude.value, second.exclude.value))
    && multiset(first.attributes) == multiset(second.attributes)
  }

  ghost predicate SameExclusion(first: Exclusion, second: Exclusion)
  {
    first.id == second.id && SameSelector(first.selector, second.selector)
  }

  ghost predicate RulesCorrespond(first: seq<Rule>, second: seq<Rule>)
  {
    forall rule :: rule in first ==> exists other :: other in second && SameRule(rule, other)
  }

  ghost predicate ExclusionsCorrespond(first: seq<Exclusion>, second: seq<Exclusion>)
  {
    forall exclusion :: exclusion in first ==> exists other :: other in second && SameExclusion(exclusion, other)
  }

  /** The policies differ only in the order of lists and in repeated values of string lists. */
  ghost predicate SamePolicy(first: Policy, second: Policy)
  {
    && first.settings == second.settings && first.defaults == second.defaults
    && SameValues(first.packages, second.packages)
    && SameValues(first.buildTags, second.buildTags)
    && SameValues(first.denyPatterns, second.denyPatterns)
    && RulesCorrespond(first.rules, second.rules) && RulesCorrespond(second.rules, first.rules)
    && ExclusionsCorrespond(first.exclusions, second.exclusions)
    && ExclusionsCorrespond(second.exclusions, first.exclusions)
  }

  /** A selector's form says which values each field lists, and nothing about order or repetition. */
  lemma SelectorFormMeaning(first: Match, second: Match)
    ensures CanonicalMatch(first) == CanonicalMatch(second) <==> SameSelector(first, second)
  {
    hide CanonicalSet;
    CanonicalSetIsDetermined(first.packages, second.packages);
    CanonicalSetIsDetermined(first.files, second.files);
    CanonicalSetIsDetermined(first.symbols, second.symbols);
    CanonicalSetIsDetermined(first.functions, second.functions);
    CanonicalSetIsDetermined(first.receivers, second.receivers);
    CanonicalSetIsDetermined(first.methods, second.methods);
    CanonicalSetIsDetermined(first.implements, second.implements);
  }

  lemma AttributeFormMeaning(first: seq<AttributeRule>, second: seq<AttributeRule>)
    requires DistinctKeys(first, AttributeKey) && DistinctKeys(second, AttributeKey)
    ensures SortBy(first, AttributeKey) == SortBy(second, AttributeKey) <==> multiset(first) == multiset(second)
  {
    hide SortBy, SortedBy, DistinctKeys;
    SortBySorts(first, AttributeKey);
    SortBySorts(second, AttributeKey);
    if multiset(first) == multiset(second) {
      SortIgnoresOrder(first, second, AttributeKey);
    }
  }

  lemma RuleFormMeaning(first: Rule, second: Rule)
    requires DistinctKeys(first.attributes, AttributeKey) && DistinctKeys(second.attributes, AttributeKey)
    ensures CanonicalRule(first) == CanonicalRule(second) <==> SameRule(first, second)
  {
    hide CanonicalMatch, SameSelector, SortBy, DistinctKeys;
    SelectorFormMeaning(first.selector, second.selector);
    AttributeFormMeaning(first.attributes, second.attributes);
    if first.exclude.Some? && second.exclude.Some? {
      SelectorFormMeaning(first.exclude.value, second.exclude.value);
    }
  }

  lemma ExclusionFormMeaning(first: Exclusion, second: Exclusion)
    ensures CanonicalExclusion(first) == CanonicalExclusion(second) <==> SameExclusion(first, second)
  {
    hide CanonicalMatch, SameSelector;
    SelectorFormMeaning(first.selector, second.selector);
  }

  /** The forms of the rules of one list are among those of the other exactly if its rules correspond. */
  lemma RulesFormMeaning(first: seq<Rule>, second: seq<Rule>)
    requires forall rule :: rule in first || rule in second ==> DistinctKeys(rule.attributes, AttributeKey)
    ensures (forall form :: form in CanonicalRules(first) ==> form in CanonicalRules(second)) <==>
            RulesCorrespond(first, second)
  {
    hide CanonicalRule, SameRule, DistinctKeys, CanonicalRules;
    CanonicalRulesContain(first);
    CanonicalRulesContain(second);
    forall rule, other | rule in first && other in second
      ensures CanonicalRule(rule) == CanonicalRule(other) <==> SameRule(rule, other)
    {
      RuleFormMeaning(rule, other);
    }
    if RulesCorrespond(first, second) {
      forall form | form in CanonicalRules(first)
        ensures form in CanonicalRules(second)
      {
        var rule :| rule in first && CanonicalRule(rule) == form;
        var other :| other in second && SameRule(rule, other);
      }
    }
    if forall form :: form in CanonicalRules(first) ==> form in CanonicalRules(second) {
      forall rule | rule in first
        ensures exists other :: other in second && SameRule(rule, other)
      {
        assert CanonicalRule(rule) in CanonicalRules(second);
      }
    }
  }

  lemma ExclusionsFormMeaning(first: seq<Exclusion>, second: seq<Exclusion>)
    ensures (forall form :: form in CanonicalExclusions(first) ==> form in CanonicalExclusions(second)) <==>
            ExclusionsCorrespond(first, second)
  {
    hide CanonicalExclusion, SameExclusion, CanonicalExclusions;
    CanonicalExclusionsContain(first);
    CanonicalExclusionsContain(second);
    forall exclusion, other | exclusion in first && other in second
      ensures CanonicalExclusion(exclusion) == CanonicalExclusion(other) <==> SameExclusion(exclusion, other)
    {
      ExclusionFormMeaning(exclusion, other);
    }
    if ExclusionsCorrespond(first, second) {
      forall form | form in CanonicalExclusions(first)
        ensures form in CanonicalExclusions(second)
      {
        var exclusion :| exclusion in first && CanonicalExclusion(exclusion) == form;
        var other :| other in second && SameExclusion(exclusion, other);
      }
    }
    if forall form :: form in CanonicalExclusions(first) ==> form in CanonicalExclusions(second) {
      forall exclusion | exclusion in first
        ensures exists other :: other in second && SameExclusion(exclusion, other)
      {
        assert CanonicalExclusion(exclusion) in CanonicalExclusions(second);
      }
    }
  }

  /** Sorted lists with unique keys are equal exactly if the elements are. */
  lemma SameSortMeaning<T(!new)>(first: seq<T>, second: seq<T>, key: T -> string)
    requires DistinctKeys(first, key) && DistinctKeys(second, key)
    ensures SortBy(first, key) == SortBy(second, key) <==>
            (forall x :: x in first ==> x in second) && (forall x :: x in second ==> x in first)
  {
    hide SortBy, SortedBy, DistinctKeys;
    SortBySorts(first, key);
    SortBySorts(second, key);
    SameElements(SortBy(first, key), first);
    SameElements(SortBy(second, key), second);
    if (forall x :: x in first ==> x in second) && (forall x :: x in second ==> x in first) {
      SameSort(first, second, key);
    }
  }

  lemma RuleListsMeaning(first: seq<Rule>, second: seq<Rule>)
    requires DistinctKeys(first, RuleId) && DistinctKeys(second, RuleId)
    requires forall rule :: rule in first || rule in second ==> DistinctKeys(rule.attributes, AttributeKey)
    ensures SortBy(CanonicalRules(first), RuleId) == SortBy(CanonicalRules(second), RuleId) <==>
            RulesCorrespond(first, second) && RulesCorrespond(second, first)
  {
    hide SortBy, SortedBy, DistinctKeys, RulesCorrespond, CanonicalRules;
    CanonicalRulesKeepIds(first);
    CanonicalRulesKeepIds(second);
    SameSortMeaning(CanonicalRules(first), CanonicalRules(second), RuleId);
    RulesFormMeaning(first, second);
    RulesFormMeaning(second, first);
  }

  lemma ExclusionListsMeaning(first: seq<Exclusion>, second: seq<Exclusion>)
    requires DistinctKeys(first, ExclusionId) && DistinctKeys(second, ExclusionId)
    ensures SortBy(CanonicalExclusions(first), ExclusionId) == SortBy(CanonicalExclusions(second), ExclusionId) <==>
            ExclusionsCorrespond(first, second) && ExclusionsCorrespond(second, first)
  {
    hide SortBy, SortedBy, DistinctKeys, ExclusionsCorrespond, CanonicalExclusions;
    CanonicalExclusionsKeepIds(first);
    CanonicalExclusionsKeepIds(second);
    SameSortMeaning(CanonicalExclusions(first), CanonicalExclusions(second), ExclusionId);
    ExclusionsFormMeaning(first, second);
    ExclusionsFormMeaning(second, first);
  }

  /** Two policies have one canonical form exactly if they differ in order and repeated values only. */
  lemma PolicyFormMeaning(first: Policy, second: Policy)
    requires UniqueIdentities(first) && UniqueIdentities(second)
    ensures CanonicalPolicy(first) == CanonicalPolicy(second) <==> SamePolicy(first, second)
  {
    hide CanonicalSet, CanonicalRules, CanonicalExclusions, SortBy, DistinctKeys, RulesCorrespond,
         ExclusionsCorrespond;
    CanonicalSetIsDetermined(first.packages, second.packages);
    CanonicalSetIsDetermined(first.buildTags, second.buildTags);
    CanonicalSetIsDetermined(first.denyPatterns, second.denyPatterns);
    RuleListsMeaning(first.rules, second.rules);
    ExclusionListsMeaning(first.exclusions, second.exclusions);
  }

  /** Reordering rules and exclusions keeps the form of the policy. */
  lemma FormIgnoresOrder(first: Policy, second: Policy)
    requires UniqueIdentities(first)
    requires first == second.(rules := first.rules, exclusions := first.exclusions)
    requires multiset(first.rules) == multiset(second.rules)
    requires multiset(first.exclusions) == multiset(second.exclusions)
    ensures CanonicalPolicy(first) == CanonicalPolicy(second)
  {
    hide CanonicalPolicy, DistinctKeys, Less;
    SameElements(first.rules, second.rules);
    SameElements(first.exclusions, second.exclusions);
    DistinctKeysOfPermutation(first.rules, second.rules, RuleId);
    DistinctKeysOfPermutation(first.exclusions, second.exclusions, ExclusionId);
    assert forall rule :: SameRule(rule, rule);
    assert forall exclusion :: SameExclusion(exclusion, exclusion);
    PolicyFormMeaning(first, second);
  }
}
