/** When the selectors of a policy stop its resolution. */
module SelectorChecks {
  import opened Matching
  import opened Policies
  import opened Resolution

  lemma {:induction false} UnknownSymbolsMeaning(known: set<string>, ruleId: string, start: seq<Diagnostic>,
                                                 ids: seq<string>)
    ensures var diagnostics := UnknownSymbols(known, ruleId, start, ids);
            && (HasErrors(diagnostics) <==> HasErrors(start) || exists id :: id in ids && id !in known)
            && ((forall id :: id in ids ==> id in known) ==> diagnostics == start)
  {
    if |ids| == 0 {
    } else {
      var init, last := ids[..|ids| - 1], ids[|ids| - 1];
      UnknownSymbolsMeaning(known, ruleId, start, init);
      assert ids == init + [last];
    }
  }

  /** A selector is rejected iff a pattern is malformed or an exact symbol does not exist. */
  ghost predicate Accepted(ctx: Context, selector: Match)
  {
    && MatchesSpec(ctx.matcher, ctx.bindings, ZERO_SYMBOL, selector).Answer?
    && forall id :: id in selector.symbols ==> id in ctx.known
  }

  lemma SelectorDiagnosticsMeaning(ctx: Context, ruleId: string, selector: Match)
    ensures HasErrors(SelectorDiagnostics(ctx, ruleId, selector)) <==> !Accepted(ctx, selector)
    ensures Accepted(ctx, selector) ==> SelectorDiagnostics(ctx, ruleId, selector) == []
  {
    hide MatchesSpec, UnknownSymbols;
    var outcome := MatchesSpec(ctx.matcher, ctx.bindings, ZERO_SYMBOL, selector);
    var malformed :=
      if outcome.BadPattern?
      then [ResolutionDiagnostic(CODE_INVALID_SELECTOR, ruleId, "", "invalid glob " + outcome.pattern)] else [];
    UnknownSymbolsMeaning(ctx.known, ruleId, malformed, selector.symbols);
    assert outcome.BadPattern? ==> malformed[0] in malformed && malformed[0].severity == ErrorSeverity;
  }

  ghost predicate AcceptedRule(ctx: Context, rule: Rule)
  {
    Accepted(ctx, rule.selector) && (rule.exclude.Some? ==> Accepted(ctx, rule.exclude.value))
  }

  lemma HasErrorsOfConcat(a: seq<Diagnostic>, b: seq<Diagnostic>)
    ensures HasErrors(a + b) <==> HasErrors(a) || HasErrors(b)
  {
  }

  lemma {:induction false} RuleSelectorMeaning(ctx: Context, start: seq<Diagnostic>, rules: seq<Rule>)
    ensures var diagnostics := RuleSelectorDiagnostics(ctx, start, rules);
            var accepted := forall rule :: rule in rules ==> AcceptedRule(ctx, rule);
            && (HasErrors(diagnostics) <==> HasErrors(start) || !accepted)
            && (accepted ==> diagnostics == start)
  {
    hide AcceptedRule, RuleDiagnostics, HasErrors;
    if |rules| == 0 {
    } else {
      var init, last := rules[..|rules| - 1], rules[|rules| - 1];
      RuleSelectorMeaning(ctx, start, init);
      assert rules == init + [last];
      RuleDiagnosticsMeaning(ctx, last);
      HasErrorsOfConcat(RuleSelectorDiagnostics(ctx, start, init), RuleDiagnostics(ctx, last));
    }
  }

  lemma RuleDiagnosticsMeaning(ctx: Context, rule: Rule)
    ensures HasErrors(RuleDiagnostics(ctx, rule)) <==> !AcceptedRule(ctx, rule)
    ensures AcceptedRule(ctx, rule) ==> RuleDiagnostics(ctx, rule) == []
  {
    hide Accepted, SelectorDiagnostics, HasErrors;
    var included := SelectorDiagnostics(ctx, rule.id, rule.selector);
    SelectorDiagnosticsMeaning(ctx, rule.id, rule.selector);
    var excluded := if rule.exclude.Some? then SelectorDiagnostics(ctx, rule.id, rule.exclude.value) else [];
    if rule.exclude.Some? {
      SelectorDiagnosticsMeaning(ctx, rule.id, rule.exclude.value);
    }
    NoErrors();
    HasErrorsOfConcat(included, excluded);
    assert RuleDiagnostics(ctx, rule) == included + excluded;
  }

  lemma NoErrors()
    ensures !HasErrors([])
  {
  }

  lemma {:induction false} ExclusionSelectorMeaning(ctx: Context, start: seq<Diagnostic>, exclusions: seq<Exclusion>)
    ensures var diagnostics := ExclusionSelectorDiagnostics(ctx, start, exclusions);
            var accepted := forall e :: e in exclusions ==> Accepted(ctx, e.selector);
            && (HasErrors(diagnostics) <==> HasErrors(start) || !accepted)
            && (accepted ==> diagnostics == start)
  {
    hide Accepted, SelectorDiagnostics, HasErrors;
    if |exclusions| == 0 {
    } else {
      var init, last := exclusions[..|exclusions| - 1], exclusions[|exclusions| - 1];
      ExclusionSelectorMeaning(ctx, start, init);
      assert exclusions == init + [last];
      SelectorDiagnosticsMeaning(ctx, last.id, last.selector);
      HasErrorsOfConcat(ExclusionSelectorDiagnostics(ctx, start, init),
                        SelectorDiagnostics(ctx, last.id, last.selector));
    }
  }

  /** All selectors of the policy are well-formed and name existing symbols. */
  ghost predicate AcceptedSelectors(ctx: Context, rules: seq<Rule>, exclusions: seq<Exclusion>)
  {
    && (forall rule :: rule in rules ==> AcceptedRule(ctx, rule))
    && (forall e :: e in exclusions ==> Accepted(ctx, e.selector))
  }

  lemma SelectorCheckMeaning(ctx: Context, validation: seq<Diagnostic>, rules: seq<Rule>, exclusions: seq<Exclusion>)
    requires !HasErrors(validation)
    ensures HasErrors(CheckSelectors(ctx, validation, rules, exclusions)) <==>
            !AcceptedSelectors(ctx, rules, exclusions)
    ensures AcceptedSelectors(ctx, rules, exclusions) ==>
              CheckSelectors(ctx, validation, rules, exclusions) == validation
  {
    hide HasErrors, RuleSelectorDiagnostics, ExclusionSelectorDiagnostics, AcceptedRule, Accepted;
    RuleSelectorMeaning(ctx, validation, rules);
    ExclusionSelectorMeaning(ctx, RuleSelectorDiagnostics(ctx, validation, rules), exclusions);
  }

  // ------------------------------------------------------------------------- what is reported

  /** What is reported of one selector: the first malformed pattern, and every listed symbol that does not exist. */
  ghost predicate SelectorReports(ctx: Context, ruleId: string, selector: Match, d: Diagnostic)
  {
    || (MatchesSpec(ctx.matcher, ctx.bindings, ZERO_SYMBOL, selector).BadPattern? &&
        d == Diagnostic(ErrorSeverity, "OTP1001",
                        "invalid glob " + MatchesSpec(ctx.matcher, ctx.bindings, ZERO_SYMBOL, selector).pattern, ruleId,
                        ""))
    || exists id :: id in selector.symbols && id !in ctx.known &&
                    d == Diagnostic(ErrorSeverity, "OTP1002", "exact symbol does not exist", ruleId, id)
  }

  lemma {:induction false} UnknownSymbolsContain(known: set<string>, ruleId: string, start: seq<Diagnostic>,
                                                 ids: seq<string>, d: Diagnostic)
    ensures d in UnknownSymbols(known, ruleId, start, ids) <==>
            || d in start
            || exists id :: id in ids && id !in known &&
                            d == Diagnostic(ErrorSeverity, "OTP1002", "exact symbol does not exist", ruleId, id)
  {
    if |ids| == 0 {
    } else {
      var init, last := ids[..|ids| - 1], ids[|ids| - 1];
      UnknownSymbolsContain(known, ruleId, start, init, d);
      assert ids == init + [last] && last in ids;
    }
  }

  lemma SelectorDiagnosticsContain(ctx: Context, ruleId: string, selector: Match, d: Diagnostic)
    ensures d in SelectorDiagnostics(ctx, ruleId, selector) <==> SelectorReports(ctx, ruleId, selector, d)
  {
    hide MatchesSpec, UnknownSymbols;
    var outcome := MatchesSpec(ctx.matcher, ctx.bindings, ZERO_SYMBOL, selector);
    if outcome.BadPattern? {
      UnknownSymbolsContain(
        ctx.known, ruleId,
        [ResolutionDiagnostic(CODE_INVALID_SELECTOR, ruleId, "", "invalid glob " + outcome.pattern)],
        selector.symbols, d);
    } else {
      UnknownSymbolsContain(ctx.known, ruleId, [], selector.symbols, d);
    }
  }

  ghost predicate RuleSelectorReports(ctx: Context, rule: Rule, d: Diagnostic)
  {
    || SelectorReports(ctx, rule.id, rule.selector, d)
    || (rule.exclude.Some? && SelectorReports(ctx, rule.id, rule.exclude.value, d))
  }

  lemma {:induction false} RuleSelectorsContain(ctx: Context, start: seq<Diagnostic>, rules: seq<Rule>, d: Diagnostic)
    ensures d in RuleSelectorDiagnostics(ctx, start, rules) <==>
            d in start || exists rule :: rule in rules && RuleSelectorReports(ctx, rule, d)
  {
    hide SelectorReports, SelectorDiagnostics;
    if |rules| == 0 {
    } else {
      var init, last := rules[..|rules| - 1], rules[|rules| - 1];
      RuleSelectorsContain(ctx, start, init, d);
      SelectorDiagnosticsContain(ctx, last.id, last.selector, d);
      if last.exclude.Some? {
        SelectorDiagnosticsContain(ctx, last.id, last.exclude.value, d);
      }
      assert rules == init + [last] && last in rules;
    }
  }

  lemma {:induction false} ExclusionSelectorsContain(ctx: Context, start: seq<Diagnostic>, exclusions: seq<Exclusion>,
                                                     d: Diagnostic)
    ensures d in ExclusionSelectorDiagnostics(ctx, start, exclusions) <==>
            d in start || exists e :: e in exclusions && SelectorReports(ctx, e.id, e.selector, d)
  {
    hide SelectorReports, SelectorDiagnostics;
    if |exclusions| == 0 {
    } else {
      var init, last := exclusions[..|exclusions| - 1], exclusions[|exclusions| - 1];
      ExclusionSelectorsContain(ctx, start, init, d);
      SelectorDiagnosticsContain(ctx, last.id, last.selector, d);
      assert exclusions == init + [last] && last in exclusions;
    }
  }

  /** A rejected policy gets the diagnostics of all its selectors, and no others besides those of the validation. */
  lemma SelectorsReport(ctx: Context, validation: seq<Diagnostic>, rules: seq<Rule>, exclusions: seq<Exclusion>,
                        d: Diagnostic)
    ensures d in CheckSelectors(ctx, validation, rules, exclusions) <==>
            || d in validation
            || (exists rule :: rule in rules && RuleSelectorReports(ctx, rule, d))
            || (exists e :: e in exclusions && SelectorReports(ctx, e.id, e.selector, d))
  {
    hide RuleSelectorReports, SelectorReports;
    RuleSelectorsContain(ctx, validation, rules, d);
    ExclusionSelectorsContain(ctx, RuleSelectorDiagnostics(ctx, validation, rules), exclusions, d);
  }
}
