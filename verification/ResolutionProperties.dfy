module ResolutionProperties {
  // What resolution means: which symbols become targets, and that declaration order never shows.

  import opened Globs
  import opened Matching
  import opened Orders
  import opened Policies
  import opened Resolution

  // ------------------------------------------------------------------- candidates of a symbol

  ghost function CandidatesOf(ctx: Context, symbol: Symbol, rules: seq<Rule>): seq<Rule>
  {
    if |rules| == 0 then []
    else
      var before, rule := CandidatesOf(ctx, symbol, rules[..|rules| - 1]), rules[|rules| - 1];
      if IsCandidate(ctx, symbol, rule) then before + [rule] else before
  }

  lemma {:induction false} CandidatesContain(ctx: Context, symbol: Symbol, rules: seq<Rule>)
    ensures forall rule :: rule in CandidatesOf(ctx, symbol, rules) <==>
                           rule in rules && IsCandidate(ctx, symbol, rule)
  {
    hide Hit;
    if |rules| == 0 {
    } else {
      CandidatesContain(ctx, symbol, rules[..|rules| - 1]);
      assert rules == rules[..|rules| - 1] + [rules[|rules| - 1]];
    }
  }

  lemma {:induction false} TracedCandidates(ctx: Context, symbol: Symbol, start: RuleTrace, rules: seq<Rule>)
    requires start.candidates == []
    ensures TraceRules(ctx, symbol, start, rules).candidates == CandidatesOf(ctx, symbol, rules)
  {
    hide Hit;
    if |rules| == 0 {
    } else {
      TracedCandidates(ctx, symbol, start, rules[..|rules| - 1]);
    }
  }

  ghost predicate ExcludedGlobally(ctx: Context, symbol: Symbol, exclusions: seq<Exclusion>)
  {
    exists e :: e in exclusions && Hit(ctx, symbol, e.selector)
  }

  lemma {:induction false} TracedExclusion(ctx: Context, symbol: Symbol, start: ExclusionTrace,
                                           exclusions: seq<Exclusion>)
    ensures TraceExclusions(ctx, symbol, true, start, exclusions).excluded <==>
            start.excluded || ExcludedGlobally(ctx, symbol, exclusions)
  {
    hide Hit;
    if |exclusions| == 0 {
    } else {
      var init, last := exclusions[..|exclusions| - 1], exclusions[|exclusions| - 1];
      TracedExclusion(ctx, symbol, start, init);
      assert exclusions == init + [last];
    }
  }

  lemma {:induction false} NotExcludedWithoutCandidates(ctx: Context, symbol: Symbol, start: ExclusionTrace,
                                                        exclusions: seq<Exclusion>)
    ensures TraceExclusions(ctx, symbol, false, start, exclusions).excluded == start.excluded
  {
    hide Hit;
    if |exclusions| == 0 {
    } else {
      NotExcludedWithoutCandidates(ctx, symbol, start, exclusions[..|exclusions| - 1]);
    }
  }

  // ------------------------------------------------------------------------ choosing a target

  /** The two targets differ at most in the rule recorded as their source. */
  predicate SameBehavior(a: Target, b: Target)
  {
    a.(ruleId := b.ruleId) == b
  }

  ghost predicate Unanimous(proposals: seq<Proposal>)
  {
    forall i :: 0 <= i < |proposals| ==>
      !HasErrors(proposals[i].diagnostics) && SameBehavior(proposals[0].target, proposals[i].target)
  }

  lemma {:induction false} ProposalMeaning(symbolId: string, proposals: seq<Proposal>)
    ensures var choice := ChooseProposal(symbolId, proposals);
            && (choice.valid <==> Unanimous(proposals))
            && (choice.valid ==> choice.chosen == if |proposals| > 0 then Some(proposals[0].target) else None)
  {
    if |proposals| == 0 {
    } else {
      var init, last := proposals[..|proposals| - 1], proposals[|proposals| - 1];
      ProposalMeaning(symbolId, init);
      assert Unanimous(proposals) <==>
             Unanimous(init) && !HasErrors(last.diagnostics) && SameBehavior(proposals[0].target, last.target);
    }
  }

  predicate ValidProposal(defaults: Defaults, symbol: Symbol, rule: Rule)
  {
    !HasErrors(Propose(defaults, rule, symbol).diagnostics)
  }

  /** The first candidate's target is chosen iff all candidates propose valid, equivalent targets. */
  lemma ChoiceMeaning(defaults: Defaults, symbol: Symbol, candidates: seq<Rule>)
    requires |candidates| > 0
    ensures var target := Propose(defaults, candidates[0], symbol).target;
            ChosenTarget(defaults, symbol, candidates) ==
            if forall rule :: rule in candidates ==>
                 ValidProposal(defaults, symbol, rule) &&
                 SameBehavior(target, Propose(defaults, rule, symbol).target)
            then Some(target) else None
  {
    hide Propose;
    var proposals := Proposals(defaults, symbol, candidates);
    ProposalMeaning(symbol.id, proposals);
    assert forall i :: 0 <= i < |candidates| ==> proposals[i] == Propose(defaults, candidates[i], symbol);
    forall i | 0 <= i < |candidates|
      ensures candidates[i] in candidates
    {
    }
  }

  // ----------------------------------------------------------------- the target of one symbol

  /** What the loop body contributes to the plan for one symbol. */
  ghost function SymbolTarget(ctx: Context, rules: seq<Rule>, exclusions: seq<Exclusion>, symbol: Symbol)
    : Option<Target>
  {
    if ExcludedGlobally(ctx, symbol, exclusions) then None
    else
      var candidates := CandidatesOf(ctx, symbol, rules);
      if |candidates| > 0 then ChosenTarget(ctx.defaults, symbol, candidates) else None
  }

  /** The explanation of each symbol says whether it was selected. */
  ghost predicate Explains(ctx: Context, rules: seq<Rule>, exclusions: seq<Exclusion>, symbol: Symbol,
                           explanation: Explanation)
  {
    && explanation.symbolId == symbol.id
    && explanation.selected == SymbolTarget(ctx, rules, exclusions, symbol).Some?
  }

  lemma SymbolStep(ctx: Context, rules: seq<Rule>, exclusions: seq<Exclusion>, totals: Totals, symbol: Symbol)
    ensures var after := TraceSymbol(ctx, rules, exclusions, totals, symbol);
            var target := SymbolTarget(ctx, rules, exclusions, symbol);
            && after.targets == totals.targets + (if target.Some? then [target.value] else [])
            && |after.explanations| == |totals.explanations| + 1
            && after.explanations[..|totals.explanations|] == totals.explanations
            && Explains(ctx, rules, exclusions, symbol, after.explanations[|totals.explanations|])
  {
    hide Hit, Choose, ChosenTarget;
    var start := RuleTrace([], totals.skipped, [], totals.matched);
    var trace := TraceRules(ctx, symbol, start, rules);
    TracedCandidates(ctx, symbol, start, rules);
    var removed := ExclusionTrace(trace.decisions, trace.skipped, false);
    if |trace.candidates| > 0 {
      TracedExclusion(ctx, symbol, removed, exclusions);
    } else {
      NotExcludedWithoutCandidates(ctx, symbol, removed, exclusions);
    }
  }

  lemma TargetOfSymbol(ctx: Context, rules: seq<Rule>, exclusions: seq<Exclusion>, symbol: Symbol)
    ensures var target := SymbolTarget(ctx, rules, exclusions, symbol);
            target.Some? ==> target.value.symbolId == symbol.id
  {
    hide Hit;
    if |CandidatesOf(ctx, symbol, rules)| > 0 {
      ChoiceMeaning(ctx.defaults, symbol, CandidatesOf(ctx, symbol, rules));
    }
  }

  ghost function SymbolTargets(ctx: Context, rules: seq<Rule>, exclusions: seq<Exclusion>,
                               symbols: seq<Symbol>): seq<Target>
  {
    if |symbols| == 0 then []
    else
      var before := SymbolTargets(ctx, rules, exclusions, symbols[..|symbols| - 1]);
      var target := SymbolTarget(ctx, rules, exclusions, symbols[|symbols| - 1]);
      if target.Some? then before + [target.value] else before
  }

  lemma {:induction false} TracedTargets(ctx: Context, rules: seq<Rule>, exclusions: seq<Exclusion>, start: Totals,
                                         symbols: seq<Symbol>)
    requires start.targets == []
    ensures TraceSymbols(ctx, rules, exclusions, start, symbols).targets ==
            SymbolTargets(ctx, rules, exclusions, symbols)
  {
    hide Hit, TraceSymbol;
    if |symbols| == 0 {
    } else {
      var init := symbols[..|symbols| - 1];
      TracedTargets(ctx, rules, exclusions, start, init);
      SymbolStep(ctx, rules, exclusions, TraceSymbols(ctx, rules, exclusions, start, init), symbols[|symbols| - 1]);
    }
  }

  lemma {:induction false} TracedExplanations(ctx: Context, rules: seq<Rule>, exclusions: seq<Exclusion>,
                                              start: Totals, symbols: seq<Symbol>)
    requires start.explanations == []
    ensures var explanations := TraceSymbols(ctx, rules, exclusions, start, symbols).explanations;
            && |explanations| == |symbols|
            && forall i :: 0 <= i < |symbols| ==> Explains(ctx, rules, exclusions, symbols[i], explanations[i])
  {
    hide Hit, TraceSymbol;
    if |symbols| == 0 {
    } else {
      var init, last := symbols[..|symbols| - 1], symbols[|symbols| - 1];
      var before := TraceSymbols(ctx, rules, exclusions, start, init);
      TracedExplanations(ctx, rules, exclusions, start, init);
      SymbolStep(ctx, rules, exclusions, before, last);
      var explanations := TraceSymbol(ctx, rules, exclusions, before, last).explanations;
      assert forall i :: 0 <= i < |init| ==> explanations[i] == explanations[..|init|][i] && symbols[i] == init[i];
    }
  }

  lemma {:induction false} SymbolTargetsContain(ctx: Context, rules: seq<Rule>, exclusions: seq<Exclusion>,
                                                symbols: seq<Symbol>)
    ensures forall t :: t in SymbolTargets(ctx, rules, exclusions, symbols) <==>
                        exists symbol :: symbol in symbols && SymbolTarget(ctx, rules, exclusions, symbol) == Some(t)
  {
    hide SymbolTarget;
    if |symbols| == 0 {
    } else {
      SymbolTargetsContain(ctx, rules, exclusions, symbols[..|symbols| - 1]);
      assert symbols == symbols[..|symbols| - 1] + [symbols[|symbols| - 1]];
    }
  }

  lemma {:induction false} OneTargetEach(ctx: Context, rules: seq<Rule>, exclusions: seq<Exclusion>,
                                         symbols: seq<Symbol>)
    requires DistinctKeys(symbols, SymbolIdOf)
    ensures DistinctKeys(SymbolTargets(ctx, rules, exclusions, symbols), TargetSymbol)
  {
    hide SymbolTarget;
    if |symbols| == 0 {
    } else {
      var init, last := symbols[..|symbols| - 1], symbols[|symbols| - 1];
      OneTargetEach(ctx, rules, exclusions, init);
      SymbolTargetsContain(ctx, rules, exclusions, init);
      TargetOfSymbol(ctx, rules, exclusions, last);
      forall t | t in SymbolTargets(ctx, rules, exclusions, init)
        ensures t.symbolId != last.id
      {
        var symbol :| symbol in init && SymbolTarget(ctx, rules, exclusions, symbol) == Some(t);
        TargetOfSymbol(ctx, rules, exclusions, symbol);
        var j :| 0 <= j < |init| && init[j] == symbol;
        assert SymbolIdOf(symbols[j]) != SymbolIdOf(symbols[|symbols| - 1]);
      }
    }
  }

  function TargetSymbol(target: Target): string { target.symbolId }

  // ------------------------------------------------------------------------ the specification

  /**
   `symbol` is a target: some rule includes it without excluding it again, no global exclusion
   matches, every such rule proposes a valid target and they all agree. The recorded rule is the one
   with the least ID.
   */
  ghost predicate IsSelected(ctx: Context, rules: seq<Rule>, exclusions: seq<Exclusion>, symbol: Symbol, target: Target)
  {
    && !ExcludedGlobally(ctx, symbol, exclusions)
    && exists least ::
       && least in rules && IsCandidate(ctx, symbol, least)
       && target == Propose(ctx.defaults, least, symbol).target
       && forall rule :: rule in rules && IsCandidate(ctx, symbol, rule) ==>
            && AtMost(least.id, rule.id)
            && ValidProposal(ctx.defaults, symbol, rule)
            && SameBehavior(target, Propose(ctx.defaults, rule, symbol).target)
  }

  lemma {:induction false} CandidatesStaySorted(ctx: Context, symbol: Symbol, rules: seq<Rule>)
    requires SortedBy(rules, RuleId)
    ensures SortedBy(CandidatesOf(ctx, symbol, rules), RuleId)
  {
    hide Hit;
    if |rules| == 0 {
    } else {
      var init, last := rules[..|rules| - 1], rules[|rules| - 1];
      CandidatesStaySorted(ctx, symbol, init);
      CandidatesContain(ctx, symbol, init);
      var before := CandidatesOf(ctx, symbol, init);
      forall i | 0 <= i < |before|
        ensures AtMost(RuleId(before[i]), RuleId(last))
      {
        assert before[i] in before;
        var j :| 0 <= j < |init| && init[j] == before[i];
        assert AtMost(RuleId(rules[j]), RuleId(rules[|rules| - 1]));
      }
    }
  }

  lemma FirstIsLeast(candidates: seq<Rule>, rule: Rule)
    requires SortedBy(candidates, RuleId) && rule in candidates
    ensures AtMost(candidates[0].id, rule.id)
  {
  }

  lemma TargetIsSelected(ctx: Context, rules: seq<Rule>, exclusions: seq<Exclusion>, symbol: Symbol, target: Target)
    requires SortedBy(rules, RuleId) && SymbolTarget(ctx, rules, exclusions, symbol) == Some(target)
    ensures IsSelected(ctx, rules, exclusions, symbol, target)
  {
    hide Hit, Propose, Less;
    var candidates := CandidatesOf(ctx, symbol, rules);
    CandidatesContain(ctx, symbol, rules);
    CandidatesStaySorted(ctx, symbol, rules);
    ChoiceMeaning(ctx.defaults, symbol, candidates);
    var least := candidates[0];
    assert least in candidates;
    forall rule | rule in rules && IsCandidate(ctx, symbol, rule)
      ensures AtMost(least.id, rule.id) && rule in candidates
    {
      FirstIsLeast(candidates, rule);
    }
  }

  lemma SelectedIsTarget(ctx: Context, rules: seq<Rule>, exclusions: seq<Exclusion>, symbol: Symbol, target: Target)
    requires SortedBy(rules, RuleId) && DistinctKeys(rules, RuleId)
    requires IsSelected(ctx, rules, exclusions, symbol, target)
    ensures SymbolTarget(ctx, rules, exclusions, symbol) == Some(target)
  {
    hide Hit, Propose;
    var candidates := CandidatesOf(ctx, symbol, rules);
    CandidatesContain(ctx, symbol, rules);
    CandidatesStaySorted(ctx, symbol, rules);
    var least :|
      && least in rules && IsCandidate(ctx, symbol, least)
      && target == Propose(ctx.defaults, least, symbol).target
      && forall rule :: rule in rules && IsCandidate(ctx, symbol, rule) ==>
           && AtMost(least.id, rule.id)
           && ValidProposal(ctx.defaults, symbol, rule)
           && SameBehavior(target, Propose(ctx.defaults, rule, symbol).target);
    assert least in candidates && candidates[0] in candidates;
    ChoiceMeaning(ctx.defaults, symbol, candidates);
    FirstIsLeast(candidates, least);
    LessIsTotal(least.id, candidates[0].id);
    SameIdSameRule(rules, least, candidates[0]);
  }

  lemma SameIdSameRule(rules: seq<Rule>, a: Rule, b: Rule)
    requires DistinctKeys(rules, RuleId) && a in rules && b in rules && a.id == b.id
    ensures a == b
  {
  }

  /** Only which rules and exclusions there are matters for who is selected. */
  lemma SelectionIgnoresOrder(ctx: Context, rules: seq<Rule>, rules': seq<Rule>, exclusions: seq<Exclusion>,
                              exclusions': seq<Exclusion>, symbol: Symbol, target: Target)
    requires forall r :: r in rules <==> r in rules'
    requires forall e :: e in exclusions <==> e in exclusions'
    ensures IsSelected(ctx, rules, exclusions, symbol, target) <==>
            IsSelected(ctx, rules', exclusions', symbol, target)
  {
    hide Hit, Propose, Less;
  }

  /** No error stopped the resolution before symbols were considered. */
  ghost predicate Proceeds(matcher: SegmentMatcher, policy: Policy, validation: seq<Diagnostic>, code: CodeModel)
  {
    && !HasErrors(validation)
    && !HasErrors(CheckSelectors(ContextOf(matcher, code, policy.defaults), validation,
                                 SortBy(policy.rules, RuleId), SortBy(policy.exclusions, ExclusionId)))
  }

  /**
   `Resolve` meets the specification: the plan's targets are exactly the selected ones, no symbol has
   two, and there is one explanation per symbol, which says `Selected` exactly for selected symbols.
   */
  lemma PlanMeaning(matcher: SegmentMatcher, policy: Policy, validation: seq<Diagnostic>, code: CodeModel)
    requires UniqueIdentities(policy) && DistinctKeys(code.symbols, SymbolIdOf)
    requires Proceeds(matcher, policy, validation, code)
    ensures var result := ResolveSpec(matcher, policy, validation, Some(code));
            var ctx := ContextOf(matcher, code, policy.defaults);
            && (forall t :: t in result.plan.targets <==>
                  exists symbol :: symbol in code.symbols &&
                                   IsSelected(ctx, policy.rules, policy.exclusions, symbol, t))
            && DistinctKeys(result.plan.targets, TargetSymbol)
            && |result.explanations| == |code.symbols|
            && (forall symbol :: symbol in code.symbols ==>
                  exists explanation :: explanation in result.explanations && explanation.symbolId == symbol.id &&
                    (explanation.selected <==>
                       exists t :: IsSelected(ctx, policy.rules, policy.exclusions, symbol, t)))
  {
    hide SymbolTarget, IsSelected, TraceSymbols, CheckSelectors, Less;
    var ctx := ContextOf(matcher, code, policy.defaults);
    var rules, exclusions := SortBy(policy.rules, RuleId), SortBy(policy.exclusions, ExclusionId);
    var symbols := SortBy(code.symbols, SymbolIdOf);
    var start := Totals([], [], CheckSelectors(ctx, validation, rules, exclusions), [], {}, {});
    SortBySorts(policy.rules, RuleId);
    SortBySorts(policy.exclusions, ExclusionId);
    SortBySorts(code.symbols, SymbolIdOf);
    SameElements(rules, policy.rules);
    SameElements(exclusions, policy.exclusions);
    SameElements(symbols, code.symbols);
    DistinctKeysOfPermutation(policy.rules, rules, RuleId);
    DistinctKeysOfPermutation(code.symbols, symbols, SymbolIdOf);
    TracedTargets(ctx, rules, exclusions, start, symbols);
    TracedExplanations(ctx, rules, exclusions, start, symbols);
    SymbolTargetsContain(ctx, rules, exclusions, symbols);
    OneTargetEach(ctx, rules, exclusions, symbols);
    var result := ResolveSpec(matcher, policy, validation, Some(code));
    assert result.plan.targets == SymbolTargets(ctx, rules, exclusions, symbols);
    forall symbol, t
      ensures SymbolTarget(ctx, rules, exclusions, symbol) == Some(t) <==>
              IsSelected(ctx, policy.rules, policy.exclusions, symbol, t)
    {
      SelectionIgnoresOrder(ctx, policy.rules, rules, policy.exclusions, exclusions, symbol, t);
      if SymbolTarget(ctx, rules, exclusions, symbol) == Some(t) {
        TargetIsSelected(ctx, rules, exclusions, symbol, t);
      }
      if IsSelected(ctx, rules, exclusions, symbol, t) {
        SelectedIsTarget(ctx, rules, exclusions, symbol, t);
      }
    }
    forall symbol | symbol in code.symbols
      ensures exists explanation :: explanation in result.explanations && explanation.symbolId == symbol.id &&
                (explanation.selected <==>
                   exists t :: IsSelected(ctx, policy.rules, policy.exclusions, symbol, t))
    {
      var i :| 0 <= i < |symbols| && symbols[i] == symbol;
      var explanation := result.explanations[i];
      assert explanation in result.explanations && Explains(ctx, rules, exclusions, symbol, explanation);
      var target := SymbolTarget(ctx, rules, exclusions, symbol);
      if target.Some? {
        assert IsSelected(ctx, policy.rules, policy.exclusions, symbol, target.value);
      }
    }
  }

  // ------------------------------------------------------------------------ declaration order

  /**
   Permuting rules, exclusions and symbols changes nothing in the result: not the plan, not the
   explanations, not the sorted diagnostics.
   */
  lemma DeclarationOrderIsIrrelevant(matcher: SegmentMatcher, policy: Policy, policy': Policy,
                                     validation: seq<Diagnostic>, code: CodeModel, code': CodeModel)
    requires UniqueIdentities(policy) && DistinctKeys(code.symbols, SymbolIdOf)
    requires multiset(policy.rules) == multiset(policy'.rules)
    requires multiset(policy.exclusions) == multiset(policy'.exclusions)
    requires policy.defaults == policy'.defaults
    requires multiset(code.symbols) == multiset(code'.symbols) && code.interfaceMethods == code'.interfaceMethods
    ensures ResolveSpec(matcher, policy, validation, Some(code)) ==
            ResolveSpec(matcher, policy', validation, Some(code'))
  {
    hide ResolveSorted, SortBy, Less;
    SortIgnoresOrder(policy.rules, policy'.rules, RuleId);
    SortIgnoresOrder(policy.exclusions, policy'.exclusions, ExclusionId);
    SortIgnoresOrder(code.symbols, code'.symbols, SymbolIdOf);
    SameElements(code.symbols, code'.symbols);
    assert ContextOf(matcher, code, policy.defaults) == ContextOf(matcher, code', policy'.defaults);
  }
}
