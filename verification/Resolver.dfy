/**
 The code of internal/resolve/resolve.go: loops that append to the result and mark rules as matched
 and effective, proved against the specification in `Resolution`.
 */
module Resolver {
  import opened Globs
  import opened Matching
  import opened Orders
  import opened Policies
  import opened Resolution
  import Templates

  method TargetSpanName(template: string, span: Option<SpanConfig>, symbol: Symbol)
    returns (rendering: Templates.Rendering)
    ensures (match rendering case Rendered(text) => text case Failed(_) => "") ==
            SpanName(Defaults(template, RootMode, false), span, symbol)
  {
    var chosen := template;
    if span.Some? && span.value.name != "" {
      chosen := span.value.name;
    }
    if chosen == "" {
      if symbol.kind.MethodKind? {
        chosen := "{{package}}.{{receiver}}.{{method}}";
      } else {
        chosen := "{{package}}.{{function}}";
      }
    }
    rendering := Templates.RenderTemplate(chosen, SpanVariables(symbol));
  }

  method TargetAttributes(attributes: seq<AttributeRule>) returns (plans: seq<AttributePlan>)
    requires DistinctKeys(attributes, AttributeKey)
    ensures plans == SortBy(AttributePlans(attributes), PlanKey)
  {
    if |attributes| == 0 {
      return [];
    }
    plans := [];
    for k := 0 to |attributes|
      invariant plans == AttributePlans(attributes[..k])
    {
      assert attributes[..k + 1][..k] == attributes[..k];
      plans := plans + [AttributePlanOf(attributes[k])];
    }
    assert attributes[..|attributes|] == attributes;
    PlansKeepKeys(attributes);
    ghost var unsorted := plans;
    plans := Sort(plans, PlanKey);
    DistinctKeysOfPermutation(unsorted, plans, PlanKey);
    SortBySorts(unsorted, PlanKey);
    SortedIsUnique(plans, SortBy(unsorted, PlanKey), PlanKey);
  }

  lemma {:induction false} PlansKeepKeys(attributes: seq<AttributeRule>)
    requires DistinctKeys(attributes, AttributeKey)
    ensures |AttributePlans(attributes)| == |attributes|
    ensures forall i :: 0 <= i < |attributes| ==> AttributePlans(attributes)[i] == AttributePlanOf(attributes[i])
    ensures DistinctKeys(AttributePlans(attributes), PlanKey)
  {
    if |attributes| > 0 {
      PlansKeepKeys(attributes[..|attributes| - 1]);
    }
    var plans := AttributePlans(attributes);
    forall i, j | 0 <= i < j < |plans|
      ensures PlanKey(plans[i]) != PlanKey(plans[j])
    {
      assert AttributeKey(attributes[i]) != AttributeKey(attributes[j]);
    }
  }

  method TargetFor(defaults: Defaults, rule: Rule, symbol: Symbol)
    returns (proposal: Proposal)
    requires DistinctKeys(rule.attributes, AttributeKey)
    ensures proposal == Propose(defaults, rule, symbol)
  {
    var (strategy, problems) := TargetContext(defaults.contextMode, rule.id, symbol);
    var diagnostics := problems;
    var rendering := TargetSpanName(defaults.spanName, rule.span, symbol);
    var name := if rendering.Rendered? then rendering.text else "";
    if rendering.Failed? || name == "" {
      diagnostics := diagnostics + [ResolutionDiagnostic(CODE_UNKNOWN_TEMPLATE_VAR, rule.id, symbol.id,
                                                         "span template must produce a nonempty valid name")];
    }
    var attributes := TargetAttributes(rule.attributes);
    var target := Target(symbol.id, name, strategy,
                     TargetErrors(defaults.recordErrors, rule.recordErrors, symbol.errorIndexes), attributes,
                     rule.id, symbol.signature);
    assert SpanName(Defaults(defaults.spanName, RootMode, false), rule.span, symbol) ==
           SpanName(defaults, rule.span, symbol);
    proposal := Proposal(target, diagnostics);
  }

  method ChooseTarget(defaults: Defaults, symbol: Symbol, candidates: seq<Rule>)
    returns (chosen: Option<Target>, diagnostics: seq<Diagnostic>)
    requires forall rule :: rule in candidates ==> DistinctKeys(rule.attributes, AttributeKey)
    ensures diagnostics == Choose(defaults, symbol, candidates).diagnostics
    ensures chosen == ChosenTarget(defaults, symbol, candidates)
  {
    hide Propose, ConflictDiagnostic, HasErrors;
    diagnostics, chosen := [], None;
    var valid := true;
    ghost var proposals := Proposals(defaults, symbol, candidates);
    for k := 0 to |candidates|
      invariant Choice(chosen, valid, diagnostics) == ChooseProposal(symbol.id, proposals[..k])
    {
      var rule := candidates[k];
      assert rule in candidates;
      var proposal := TargetFor(defaults, rule, symbol);
      assert proposals[..k + 1][..k] == proposals[..k] && proposals[k] == proposal;
      var target, problems := proposal.target, proposal.diagnostics;
      diagnostics := diagnostics + problems;
      if HasErrors(problems) {
        valid := false;
        continue;
      }
      if chosen.None? {
        chosen := Some(target);
        continue;
      }
      if chosen.value.(ruleId := target.ruleId) != target {
        valid := false;
        diagnostics := diagnostics + [ConflictDiagnostic(symbol.id, chosen.value.ruleId, target.ruleId)];
      }
    }
    assert proposals[..|candidates|] == proposals;
    if !valid {
      chosen := None;
    }
  }

  method ValidateSelector(ctx: Context, ruleId: string, selector: Match) returns (diagnostics: seq<Diagnostic>)
    ensures diagnostics == SelectorDiagnostics(ctx, ruleId, selector)
  {
    diagnostics := [];
    var outcome := Matches(ctx.matcher, ctx.bindings, ZERO_SYMBOL, selector);
    if outcome.BadPattern? {
      diagnostics := [ResolutionDiagnostic(CODE_INVALID_SELECTOR, ruleId, "", "invalid glob " + outcome.pattern)];
    }
    ghost var malformed := diagnostics;
    for k := 0 to |selector.symbols|
      invariant diagnostics == UnknownSymbols(ctx.known, ruleId, malformed, selector.symbols[..k])
    {
      assert selector.symbols[..k + 1][..k] == selector.symbols[..k];
      if selector.symbols[k] !in ctx.known {
        diagnostics := diagnostics +
          [ResolutionDiagnostic(CODE_UNRESOLVED_SYMBOL, ruleId, selector.symbols[k], "exact symbol does not exist")];
      }
    }
    assert selector.symbols[..|selector.symbols|] == selector.symbols;
  }

  method ValidateRule(ctx: Context, rule: Rule) returns (diagnostics: seq<Diagnostic>)
    ensures diagnostics == RuleDiagnostics(ctx, rule)
  {
    diagnostics := ValidateSelector(ctx, rule.id, rule.selector);
    if rule.exclude.Some? {
      var excluded := ValidateSelector(ctx, rule.id, rule.exclude.value);
      diagnostics := diagnostics + excluded;
    }
  }

  /** The result under construction: `Resolve` and its helpers append to these fields. */
  class ResolutionResult {
    var targets: seq<Target>
    var skipped: seq<SkippedTarget>
    var diagnostics: seq<Diagnostic>
    var explanations: seq<Explanation>

    constructor (validation: seq<Diagnostic>)
      ensures View() == Resolved(Plan([], []), validation, [])
    {
      targets, skipped, diagnostics, explanations := [], [], validation, [];
    }

    function View(): Resolved
      reads this
    {
      Resolved(Plan(targets, skipped), diagnostics, explanations)
    }

    ghost function Totaled(matched: set<string>, effective: set<string>): Totals
      reads this
    {
      Totals(targets, skipped, diagnostics, explanations, matched, effective)
    }

    method CandidateRules(ctx: Context, symbol: Symbol, rules: seq<Rule>, oldMatched: set<string>)
      returns (candidates: seq<Rule>, decisions: seq<Decision>, matched: set<string>)
      modifies this`skipped
      ensures RuleTrace(decisions, skipped, candidates, matched) ==
              TraceRules(ctx, symbol, RuleTrace([], old(skipped), [], oldMatched), rules)
    {
      candidates, decisions, matched := [], [], oldMatched;
      for k := 0 to |rules|
        invariant RuleTrace(decisions, skipped, candidates, matched) ==
                  TraceRules(ctx, symbol, RuleTrace([], old(skipped), [], oldMatched), rules[..k])
      {
        var rule := rules[k];
        assert rules[..k + 1][..k] == rules[..k];
        var outcome := Matches(ctx.matcher, ctx.bindings, symbol, rule.selector);
        var hit := outcome == Answer(true);
        decisions := decisions + [Decision(rule.id, "include", hit)];
        if !hit {
          continue;
        }
        matched := matched + {rule.id};
        if rule.exclude.Some? {
          var exclusion := Matches(ctx.matcher, ctx.bindings, symbol, rule.exclude.value);
          var excluded := exclusion == Answer(true);
          decisions := decisions + [Decision(rule.id, "local-exclusion", excluded)];
          if excluded {
            skipped := skipped + [SkippedTarget(symbol.id, rule.id, Excluded)];
            continue;
          }
        }
        candidates := candidates + [rule];
      }
      assert rules[..|rules|] == rules;
    }

    method ApplyGlobalExclusions(ctx: Context, symbol: Symbol, exclusions: seq<Exclusion>, candidateCount: nat,
                                 oldDecisions: seq<Decision>)
      returns (excluded: bool, decisions: seq<Decision>)
      modifies this`skipped
      ensures ExclusionTrace(decisions, skipped, excluded) ==
              TraceExclusions(ctx, symbol, candidateCount > 0,
                              ExclusionTrace(oldDecisions, old(skipped), false), exclusions)
    {
      excluded, decisions := false, oldDecisions;
      for k := 0 to |exclusions|
        invariant ExclusionTrace(decisions, skipped, excluded) ==
                  TraceExclusions(ctx, symbol, candidateCount > 0,
                                  ExclusionTrace(oldDecisions, old(skipped), false), exclusions[..k])
      {
        var exclusion := exclusions[k];
        assert exclusions[..k + 1][..k] == exclusions[..k];
        var outcome := Matches(ctx.matcher, ctx.bindings, symbol, exclusion.selector);
        var hit := outcome == Answer(true);
        decisions := decisions + [Decision(exclusion.id, "global-exclusion", hit)];
        if hit && candidateCount > 0 {
          excluded := true;
          skipped := skipped + [SkippedTarget(symbol.id, exclusion.id, Excluded)];
        }
      }
      assert exclusions[..|exclusions|] == exclusions;
    }

    /** The end of the loop body: record the choice among the candidates. */
    method RecordChoice(defaults: Defaults, symbol: Symbol, candidates: seq<Rule>, decisions: seq<Decision>,
                        chosen: Option<Target>, problems: seq<Diagnostic>, ghost matched: set<string>,
                        oldEffective: set<string>)
      returns (effective: set<string>)
      requires |candidates| > 0
      modifies this
      ensures Totaled(matched, effective) ==
              Record(defaults, symbol, old(Totaled(matched, oldEffective)), candidates, decisions, chosen, problems)
    {
      effective := MarkEffective(candidates, oldEffective);
      diagnostics := diagnostics + problems;
      if chosen.Some? {
        targets := targets + [chosen.value];
      }
      if HasErrors(problems) && |symbol.contextIndexes| == 0 && !defaults.contextMode.RootMode? {
        skipped := skipped + [SkippedTarget(symbol.id, candidates[0].id, MissingContext)];
      }
      explanations := explanations + [Explanation(symbol.id, decisions, chosen.Some?)];
    }

    /** The body of the loop over symbols. */
    method ResolveSymbol(ctx: Context, symbol: Symbol, rules: seq<Rule>, exclusions: seq<Exclusion>,
                         oldMatched: set<string>, oldEffective: set<string>)
      returns (matched: set<string>, effective: set<string>)
      requires forall rule :: rule in rules ==> DistinctKeys(rule.attributes, AttributeKey)
      modifies this
      ensures Totaled(matched, effective) ==
              TraceSymbol(ctx, rules, exclusions, old(Totaled(oldMatched, oldEffective)), symbol)
    {
      hide TraceRules, TraceExclusions, Choose, ChosenTarget;
      var candidates, decisions;
      effective := oldEffective;
      CandidatesAreRules(ctx, symbol, RuleTrace([], skipped, [], oldMatched), rules);
      candidates, decisions, matched := CandidateRules(ctx, symbol, rules, oldMatched);
      var excluded;
      excluded, decisions := ApplyGlobalExclusions(ctx, symbol, exclusions, |candidates|, decisions);
      if excluded || |candidates| == 0 {
        explanations := explanations + [Explanation(symbol.id, decisions, false)];
        return;
      }
      var chosen, problems := ChooseTarget(ctx.defaults, symbol, candidates);
      effective := RecordChoice(ctx.defaults, symbol, candidates, decisions, chosen, problems, matched, oldEffective);
    }

    method ResolveSymbols(ctx: Context, symbols: seq<Symbol>, rules: seq<Rule>, exclusions: seq<Exclusion>)
      returns (matched: set<string>, effective: set<string>)
      requires forall rule :: rule in rules ==> DistinctKeys(rule.attributes, AttributeKey)
      modifies this
      ensures Totaled(matched, effective) ==
              TraceSymbols(ctx, rules, exclusions, old(Totaled({}, {})), symbols)
    {
      matched, effective := {}, {};
      for k := 0 to |symbols|
        invariant Totaled(matched, effective) ==
                  TraceSymbols(ctx, rules, exclusions, old(Totaled({}, {})), symbols[..k])
      {
        assert symbols[..k + 1][..k] == symbols[..k];
        matched, effective := ResolveSymbol(ctx, symbols[k], rules, exclusions, matched, effective);
      }
      assert symbols[..|symbols|] == symbols;
    }

    /** The loops that check the selectors of all rules and exclusions. */
    method ValidateSelectors(ctx: Context, rules: seq<Rule>, exclusions: seq<Exclusion>)
      modifies this`diagnostics
      ensures diagnostics == CheckSelectors(ctx, old(diagnostics), rules, exclusions)
    {
      for k := 0 to |rules|
        invariant diagnostics == RuleSelectorDiagnostics(ctx, old(diagnostics), rules[..k])
      {
        assert rules[..k + 1][..k] == rules[..k];
        var problems := ValidateRule(ctx, rules[k]);
        diagnostics := diagnostics + problems;
      }
      assert rules[..|rules|] == rules;
      ghost var checked := diagnostics;
      for k := 0 to |exclusions|
        invariant diagnostics == ExclusionSelectorDiagnostics(ctx, checked, exclusions[..k])
      {
        assert exclusions[..k + 1][..k] == exclusions[..k];
        var problems := ValidateSelector(ctx, exclusions[k].id, exclusions[k].selector);
        diagnostics := diagnostics + problems;
      }
      assert exclusions[..|exclusions|] == exclusions;
    }

    /** The final `sort.SliceStable` of the diagnostics. */
    method SortReported()
      modifies this`diagnostics
      ensures diagnostics == SortDiagnostics(old(diagnostics))
    {
      hide DiagnosticLess;
      DiagnosticOrder();
      var sorted := SortStable(diagnostics, DiagnosticLess);
      DiagnosticsAreSorted(diagnostics, sorted);
      diagnostics := sorted;
    }

    method ReportRuleMatches(rules: seq<Rule>, matched: set<string>, effective: set<string>)
      modifies this`diagnostics
      ensures diagnostics == RuleMatchDiagnostics(old(diagnostics), rules, matched, effective)
    {
      for k := 0 to |rules|
        invariant diagnostics == RuleMatchDiagnostics(old(diagnostics), rules[..k], matched, effective)
      {
        var rule := rules[k];
        assert rules[..k + 1][..k] == rules[..k];
        if rule.id !in matched {
          diagnostics := diagnostics +
            [ResolutionDiagnostic(CODE_UNRESOLVED_SYMBOL, rule.id, "", "selector matches no symbols")];
          continue;
        }
        if rule.id !in effective {
          diagnostics := diagnostics +
            [Diagnostic(WarningSeverity, CODE_RULE_FULLY_EXCLUDED,
                        "all matched symbols are excluded; rule selects no targets", rule.id, "")];
        }
      }
      assert rules[..|rules|] == rules;
    }
  }

  lemma {:induction false} CandidatesAreRules(ctx: Context, symbol: Symbol, start: RuleTrace, rules: seq<Rule>)
    ensures forall rule :: rule in TraceRules(ctx, symbol, start, rules).candidates ==>
                           rule in start.candidates || rule in rules
  {
    if |rules| == 0 {
    } else {
      CandidatesAreRules(ctx, symbol, start, rules[..|rules| - 1]);
    }
  }

  method MarkEffective(candidates: seq<Rule>, oldEffective: set<string>) returns (effective: set<string>)
    ensures effective == oldEffective + Ids(candidates)
  {
    effective := oldEffective;
    for k := 0 to |candidates|
      invariant effective == oldEffective + Ids(candidates[..k])
    {
      assert candidates[..k + 1] == candidates[..k] + [candidates[k]];
      assert Ids(candidates[..k + 1]) == Ids(candidates[..k]) + {candidates[k].id};
      effective := effective + {candidates[k].id};
    }
    assert candidates[..|candidates|] == candidates;
  }

  /**
   `Resolve`. The three sorts promise no more than some sorted permutation; unique IDs make the result
   independent of which one they return.
   */
  method Resolve(matcher: SegmentMatcher, policy: Policy, validation: seq<Diagnostic>, code: Option<CodeModel>)
    returns (result: Resolved)
    requires !HasErrors(validation) ==> UniqueIdentities(policy)
    requires code.Some? ==> DistinctKeys(code.value.symbols, SymbolIdOf)
    ensures result == ResolveSpec(matcher, policy, validation, code)
  {
    var state := new ResolutionResult(validation);
    if HasErrors(state.diagnostics) {
      return state.View();
    }
    if code.None? {
      state.diagnostics := state.diagnostics +
        [ResolutionDiagnostic(CODE_INVALID_POLICY, "", "", "code model is required")];
      return state.View();
    }
    var ctx := ContextOf(matcher, code.value, policy.defaults);
    var rules := SortUnique(policy.rules, RuleId);
    var exclusions := SortUnique(policy.exclusions, ExclusionId);
    var symbols := SortUnique(code.value.symbols, SymbolIdOf);
    state.ValidateSelectors(ctx, rules, exclusions);
    if HasErrors(state.diagnostics) {
      return state.View();
    }
    SortBySorts(policy.rules, RuleId);
    SameElements(rules, policy.rules);
    var matched, effective := state.ResolveSymbols(ctx, symbols, rules, exclusions);
    state.ReportRuleMatches(rules, matched, effective);
    state.SortReported();
    return state.View();
  }
}
