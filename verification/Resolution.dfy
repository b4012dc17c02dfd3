/** Policy resolution (internal/resolve/resolve.go). */
module Resolution {
  import opened Globs
  import opened Matching
  import opened Orders
  import opened Policies
  import Templates

  /**
   What stays the same while one policy is resolved. Of the code model, selectors use the interface
   bindings and whether a symbol ID exists.
   */
  datatype Context = Context(matcher: SegmentMatcher, bindings: seq<InterfaceMethod>, known: set<string>,
                             defaults: Defaults)

  function ContextOf(matcher: SegmentMatcher, code: CodeModel, defaults: Defaults): Context
  {
    Context(matcher, code.interfaceMethods, set symbol | symbol in code.symbols :: symbol.id, defaults)
  }

  datatype Plan = Plan(targets: seq<Target>, skipped: seq<SkippedTarget>)

  datatype Resolved = Resolved(plan: Plan, diagnostics: seq<Diagnostic>, explanations: seq<Explanation>)

  ghost predicate Hit(ctx: Context, symbol: Symbol, selector: Match)
  {
    MatchesSpec(ctx.matcher, ctx.bindings, symbol, selector) == Answer(true)
  }

  // --------------------------------------------------------------------- the target of a rule

  datatype Proposal = Proposal(target: Target, diagnostics: seq<Diagnostic>)

  function TargetContext(mode: ContextMode, ruleId: string, symbol: Symbol): (ContextStrategy, seq<Diagnostic>)
  {
    if |symbol.contextIndexes| == 0 then
      if mode.RootMode? then
        (ContextStrategy("root", 0), [])
      else
        (ContextStrategy("", 0),
         [ResolutionDiagnostic(CODE_MISSING_CONTEXT, ruleId, symbol.id,
                               "selected target has no context.Context argument")])
    else if |symbol.contextIndexes| == 1 then
      (ContextStrategy("argument", symbol.contextIndexes[0]), [])
    else
      (ContextStrategy("", 0),
       [ResolutionDiagnostic(CODE_MULTIPLE_CONTEXTS, ruleId, symbol.id,
                             "multiple context.Context arguments require an explicit supported selection strategy")])
  }

  function SpanTemplate(template: string, span: Option<SpanConfig>, symbol: Symbol): string
  {
    var chosen := if span.Some? && span.value.name != "" then span.value.name else template;
    if chosen != "" then chosen
    else if symbol.kind.MethodKind? then "{{package}}.{{receiver}}.{{method}}"
    else "{{package}}.{{function}}"
  }

  function SpanVariables(symbol: Symbol): map<string, string>
  {
    map["symbol" := symbol.id, "package" := symbol.packageName, "import_path" := symbol.importPath,
        "receiver" := ReceiverOf(symbol),
        "method" := if symbol.kind.MethodKind? then symbol.name else "",
        "function" := if symbol.kind.MethodKind? then "" else symbol.name]
  }

  function SpanName(defaults: Defaults, span: Option<SpanConfig>, symbol: Symbol): string
  {
    match Templates.RenderSpec(SpanTemplate(defaults.spanName, span, symbol), SpanVariables(symbol))
    case Rendered(text) => text
    case Failed(_) => ""
  }

  function TargetErrors(record: bool, override: Option<bool>, indexes: seq<int>): ErrorStrategy
  {
    var effective := if override.Some? then override.value else record;
    ErrorStrategy(effective, if effective then indexes else [])
  }

  function AttributePlanOf(attribute: AttributeRule): AttributePlan
  {
    var safety := if attribute.safety.Some? then attribute.safety.value else Safety("", false);
    AttributePlan(attribute.key, attribute.source, attribute.stringer, safety.classification, safety.allow)
  }

  function AttributePlans(attributes: seq<AttributeRule>): seq<AttributePlan>
  {
    if |attributes| == 0 then []
    else AttributePlans(attributes[..|attributes| - 1]) + [AttributePlanOf(attributes[|attributes| - 1])]
  }

  function AttributeKey(attribute: AttributeRule): string { attribute.key }

  function PlanKey(plan: AttributePlan): string { plan.key }

  function RuleId(rule: Rule): string { rule.id }

  function ExclusionId(exclusion: Exclusion): string { exclusion.id }

  function SymbolIdOf(symbol: Symbol): string { symbol.id }

  function NameDiagnostics(defaults: Defaults, rule: Rule, symbol: Symbol): seq<Diagnostic>
  {
    if SpanName(defaults, rule.span, symbol) == "" then
      [ResolutionDiagnostic(CODE_UNKNOWN_TEMPLATE_VAR, rule.id, symbol.id,
                            "span template must produce a nonempty valid name")]
    else
      []
  }

  /** What one rule proposes for one symbol, and the errors that make the proposal invalid. */
  function Propose(defaults: Defaults, rule: Rule, symbol: Symbol): Proposal
  {
    var (strategy, diagnostics) := TargetContext(defaults.contextMode, rule.id, symbol);
    Proposal(
      Target(symbol.id, SpanName(defaults, rule.span, symbol), strategy,
             TargetErrors(defaults.recordErrors, rule.recordErrors, symbol.errorIndexes),
             SortBy(AttributePlans(rule.attributes), PlanKey), rule.id, symbol.signature),
      diagnostics + NameDiagnostics(defaults, rule, symbol))
  }

  // ------------------------------------------------------------------ the loops, as left folds

  /** The state of `candidateRules`: explanation entries, skipped targets, candidates, matched rule IDs. */
  datatype RuleTrace = RuleTrace(decisions: seq<Decision>, skipped: seq<SkippedTarget>, candidates: seq<Rule>,
                                 matched: set<string>)

  ghost predicate IsCandidate(ctx: Context, symbol: Symbol, rule: Rule)
  {
    Hit(ctx, symbol, rule.selector) && !(rule.exclude.Some? && Hit(ctx, symbol, rule.exclude.value))
  }

  ghost function TraceRule(ctx: Context, symbol: Symbol, trace: RuleTrace, rule: Rule): RuleTrace
  {
    if !Hit(ctx, symbol, rule.selector) then
      trace.(decisions := trace.decisions + [Decision(rule.id, "include", false)])
    else
      var included := trace.(decisions := trace.decisions + [Decision(rule.id, "include", true)],
                             matched := trace.matched + {rule.id});
      if rule.exclude.None? then
        included.(candidates := trace.candidates + [rule])
      else
        var excluded := Hit(ctx, symbol, rule.exclude.value);
        var decided := included.(decisions := included.decisions + [Decision(rule.id, "local-exclusion", excluded)]);
        if excluded then decided.(skipped := trace.skipped + [SkippedTarget(symbol.id, rule.id, Excluded)])
        else decided.(candidates := trace.candidates + [rule])
  }

  ghost function TraceRules(ctx: Context, symbol: Symbol, start: RuleTrace, rules: seq<Rule>): RuleTrace
  {
    if |rules| == 0 then start
    else TraceRule(ctx, symbol, TraceRules(ctx, symbol, start, rules[..|rules| - 1]), rules[|rules| - 1])
  }

  datatype ExclusionTrace = ExclusionTrace(decisions: seq<Decision>, skipped: seq<SkippedTarget>, excluded: bool)

  /** `any` says whether the symbol has candidates: only then do exclusions skip it. */
  ghost function TraceExclusion(ctx: Context, symbol: Symbol, any: bool, trace: ExclusionTrace,
                                exclusion: Exclusion): ExclusionTrace
  {
    var hit := Hit(ctx, symbol, exclusion.selector);
    var decided := trace.(decisions := trace.decisions + [Decision(exclusion.id, "global-exclusion", hit)]);
    if hit && any then
      decided.(excluded := true, skipped := trace.skipped + [SkippedTarget(symbol.id, exclusion.id, Excluded)])
    else
      decided
  }

  ghost function TraceExclusions(ctx: Context, symbol: Symbol, any: bool, start: ExclusionTrace,
                                 exclusions: seq<Exclusion>): ExclusionTrace
  {
    if |exclusions| == 0 then start
    else TraceExclusion(ctx, symbol, any,
                        TraceExclusions(ctx, symbol, any, start, exclusions[..|exclusions| - 1]),
                        exclusions[|exclusions| - 1])
  }

  datatype Choice = Choice(chosen: Option<Target>, valid: bool, diagnostics: seq<Diagnostic>)

  function ConflictDiagnostic(symbolId: string, chosenId: string, ruleId: string): Diagnostic
  {
    ResolutionDiagnostic(CODE_CONFLICTING_RULES, ruleId, symbolId, "instrumentation conflicts with rule " + chosenId)
  }

  function ChooseAmong(symbolId: string, choice: Choice, proposal: Proposal): Choice
  {
    var reported := choice.(diagnostics := choice.diagnostics + proposal.diagnostics);
    if HasErrors(proposal.diagnostics) then
      reported.(valid := false)
    else if choice.chosen.None? then
      reported.(chosen := Some(proposal.target))
    else if choice.chosen.value.(ruleId := proposal.target.ruleId) != proposal.target then
      reported.(valid := false,
                diagnostics := reported.diagnostics +
                               [ConflictDiagnostic(symbolId, choice.chosen.value.ruleId, proposal.target.ruleId)])
    else
      reported
  }

  function ChooseProposal(symbolId: string, proposals: seq<Proposal>): Choice
  {
    if |proposals| == 0 then Choice(None, true, [])
    else ChooseAmong(symbolId, ChooseProposal(symbolId, proposals[..|proposals| - 1]), proposals[|proposals| - 1])
  }

  function Proposals(defaults: Defaults, symbol: Symbol, candidates: seq<Rule>): seq<Proposal>
  {
    seq(|candidates|, i requires 0 <= i < |candidates| => Propose(defaults, candidates[i], symbol))
  }

  function Choose(defaults: Defaults, symbol: Symbol, candidates: seq<Rule>): Choice
  {
    ChooseProposal(symbol.id, Proposals(defaults, symbol, candidates))
  }

  function Ids(rules: seq<Rule>): set<string>
  {
    set rule | rule in rules :: rule.id
  }

  /** The result under construction together with the rules matched and effective so far. */
  datatype Totals = Totals(targets: seq<Target>, skipped: seq<SkippedTarget>, diagnostics: seq<Diagnostic>,
                           explanations: seq<Explanation>, matched: set<string>, effective: set<string>)

  /** What `resolveSymbols` records once a target was chosen, or none could be. */
  function Record(defaults: Defaults, symbol: Symbol, totals: Totals, candidates: seq<Rule>,
                  decisions: seq<Decision>, chosen: Option<Target>, diagnostics: seq<Diagnostic>): Totals
    requires |candidates| > 0
  {
    var missing := HasErrors(diagnostics) && |symbol.contextIndexes| == 0 && !defaults.contextMode.RootMode?;
    totals.(
      targets := if chosen.Some? then totals.targets + [chosen.value] else totals.targets,
      skipped := if missing then totals.skipped + [SkippedTarget(symbol.id, candidates[0].id, MissingContext)]
                 else totals.skipped,
      diagnostics := totals.diagnostics + diagnostics,
      explanations := totals.explanations + [Explanation(symbol.id, decisions, chosen.Some?)],
      effective := totals.effective + Ids(candidates))
  }

  function ChosenTarget(defaults: Defaults, symbol: Symbol, candidates: seq<Rule>): Option<Target>
  {
    var choice := Choose(defaults, symbol, candidates);
    if choice.valid then choice.chosen else None
  }

  ghost function TraceSymbol(ctx: Context, rules: seq<Rule>, exclusions: seq<Exclusion>, totals: Totals,
                             symbol: Symbol): Totals
  {
    var trace := TraceRules(ctx, symbol, RuleTrace([], totals.skipped, [], totals.matched), rules);
    var removed := TraceExclusions(ctx, symbol, |trace.candidates| > 0,
                                   ExclusionTrace(trace.decisions, trace.skipped, false), exclusions);
    var traced := totals.(skipped := removed.skipped, matched := trace.matched);
    if removed.excluded || |trace.candidates| == 0 then
      traced.(explanations := totals.explanations + [Explanation(symbol.id, removed.decisions, false)])
    else
      Record(ctx.defaults, symbol, traced, trace.candidates, removed.decisions,
             ChosenTarget(ctx.defaults, symbol, trace.candidates),
             Choose(ctx.defaults, symbol, trace.candidates).diagnostics)
  }

  ghost function TraceSymbols(ctx: Context, rules: seq<Rule>, exclusions: seq<Exclusion>, start: Totals,
                              symbols: seq<Symbol>): Totals
  {
    if |symbols| == 0 then start
    else TraceSymbol(ctx, rules, exclusions,
                     TraceSymbols(ctx, rules, exclusions, start, symbols[..|symbols| - 1]),
                     symbols[|symbols| - 1])
  }

  // ------------------------------------------------------------------------------ diagnostics

  function UnknownSymbols(known: set<string>, ruleId: string, start: seq<Diagnostic>, ids: seq<string>): seq<Diagnostic>
  {
    if |ids| == 0 then start
    else
      var before := UnknownSymbols(known, ruleId, start, ids[..|ids| - 1]);
      var id := ids[|ids| - 1];
      if id in known then before
      else before + [ResolutionDiagnostic(CODE_UNRESOLVED_SYMBOL, ruleId, id, "exact symbol does not exist")]
  }

  ghost function SelectorDiagnostics(ctx: Context, ruleId: string, selector: Match): seq<Diagnostic>
  {
    var outcome := MatchesSpec(ctx.matcher, ctx.bindings, ZERO_SYMBOL, selector);
    var malformed :=
      if outcome.BadPattern?
      then [ResolutionDiagnostic(CODE_INVALID_SELECTOR, ruleId, "", "invalid glob " + outcome.pattern)] else [];
    UnknownSymbols(ctx.known, ruleId, malformed, selector.symbols)
  }

  ghost function RuleDiagnostics(ctx: Context, rule: Rule): seq<Diagnostic>
  {
    SelectorDiagnostics(ctx, rule.id, rule.selector) +
    if rule.exclude.Some? then SelectorDiagnostics(ctx, rule.id, rule.exclude.value) else []
  }

  ghost function RuleSelectorDiagnostics(ctx: Context, start: seq<Diagnostic>, rules: seq<Rule>): seq<Diagnostic>
  {
    if |rules| == 0 then start
    else RuleSelectorDiagnostics(ctx, start, rules[..|rules| - 1]) + RuleDiagnostics(ctx, rules[|rules| - 1])
  }

  ghost function ExclusionSelectorDiagnostics(ctx: Context, start: seq<Diagnostic>,
                                              exclusions: seq<Exclusion>): seq<Diagnostic>
  {
    if |exclusions| == 0 then start
    else
      var exclusion := exclusions[|exclusions| - 1];
      ExclusionSelectorDiagnostics(ctx, start, exclusions[..|exclusions| - 1]) +
      SelectorDiagnostics(ctx, exclusion.id, exclusion.selector)
  }

  function RuleMatchDiagnostics(start: seq<Diagnostic>, rules: seq<Rule>, matched: set<string>,
                                effective: set<string>): seq<Diagnostic>
  {
    if |rules| == 0 then start
    else
      var before := RuleMatchDiagnostics(start, rules[..|rules| - 1], matched, effective);
      var rule := rules[|rules| - 1];
      if rule.id !in matched then
        before + [ResolutionDiagnostic(CODE_UNRESOLVED_SYMBOL, rule.id, "", "selector matches no symbols")]
      else if rule.id !in effective then
        before + [Diagnostic(WarningSeverity, CODE_RULE_FULLY_EXCLUDED,
                             "all matched symbols are excluded; rule selects no targets", rule.id, "")]
      else
        before
  }

  predicate DiagnosticLess(first: Diagnostic, second: Diagnostic)
  {
    if first.symbol != second.symbol then Less(first.symbol, second.symbol)
    else if first.ruleId != second.ruleId then Less(first.ruleId, second.ruleId)
    else if first.code != second.code then Less(first.code, second.code)
    else Less(first.message, second.message)
  }

  lemma DiagnosticLessIsTotal(a: Diagnostic, b: Diagnostic)
    ensures !(DiagnosticLess(a, b) && DiagnosticLess(b, a))
    ensures DiagnosticLess(a, b) || DiagnosticLess(b, a) || SameDiagnosticKey(a, b)
    ensures SameDiagnosticKey(a, b) ==> !DiagnosticLess(a, b)
  {
    hide Less;
    LessIsTotal(a.symbol, b.symbol);
    LessIsTotal(a.ruleId, b.ruleId);
    LessIsTotal(a.code, b.code);
    LessIsTotal(a.message, b.message);
  }

  predicate SameDiagnosticKey(a: Diagnostic, b: Diagnostic)
  {
    a.symbol == b.symbol && a.ruleId == b.ruleId && a.code == b.code && a.message == b.message
  }

  lemma DiagnosticLessIsTransitive(a: Diagnostic, b: Diagnostic, c: Diagnostic)
    requires DiagnosticLess(a, b) && DiagnosticLess(b, c)
    ensures DiagnosticLess(a, c)
  {
    hide Less;
    FieldLessIsTransitive(a.symbol, b.symbol, c.symbol);
    FieldLessIsTransitive(a.ruleId, b.ruleId, c.ruleId);
    FieldLessIsTransitive(a.code, b.code, c.code);
    FieldLessIsTransitive(a.message, b.message, c.message);
  }

  lemma FieldLessIsTransitive(a: string, b: string, c: string)
    ensures !(Less(a, b) && Less(b, a)) && !Less(a, a)
    ensures Less(a, b) && Less(b, c) ==> Less(a, c)
  {
    LessIsTotal(a, b);
    LessIsTotal(a, a);
    if Less(a, b) && Less(b, c) {
      LessIsTransitive(a, b, c);
    }
  }

  lemma NotDiagnosticLessIsTransitive(a: Diagnostic, b: Diagnostic, c: Diagnostic)
    requires !DiagnosticLess(b, a) && !DiagnosticLess(c, b)
    ensures !DiagnosticLess(c, a)
  {
    hide Less;
    DiagnosticLessIsTotal(a, b);
    DiagnosticLessIsTotal(b, c);
    DiagnosticLessIsTotal(a, c);
    if DiagnosticLess(a, b) && DiagnosticLess(b, c) {
      DiagnosticLessIsTransitive(a, b, c);
    }
  }

  /** The comparison of diagnostics is one that `sort.SliceStable` can use. */
  lemma DiagnosticOrder()
    ensures IsOrder(DiagnosticLess)
  {
    hide DiagnosticLess;
    forall a, b
      ensures !(DiagnosticLess(a, b) && DiagnosticLess(b, a))
    {
      DiagnosticLessIsTotal(a, b);
    }
    forall a, b, c | DiagnosticLess(a, b) && DiagnosticLess(b, c)
      ensures DiagnosticLess(a, c)
    {
      DiagnosticLessIsTransitive(a, b, c);
    }
    forall a, b, c | !DiagnosticLess(b, a) && !DiagnosticLess(c, b)
      ensures !DiagnosticLess(c, a)
    {
      NotDiagnosticLessIsTransitive(a, b, c);
    }
  }

  function SortDiagnostics(diagnostics: seq<Diagnostic>): seq<Diagnostic>
  {
    SortLess(diagnostics, DiagnosticLess)
  }

  /** The sorted diagnostics are the stable sort: in order, and in their own order where not told apart. */
  lemma DiagnosticsAreSorted(diagnostics: seq<Diagnostic>, r: seq<Diagnostic>)
    ensures r == SortDiagnostics(diagnostics) <==> IsStableSortOf(r, diagnostics, DiagnosticLess)
  {
    hide DiagnosticLess, IsOrder;
    DiagnosticOrder();
    SortLessIsStable(diagnostics, DiagnosticLess);
    if IsStableSortOf(r, diagnostics, DiagnosticLess) {
      StableSortIsUnique(r, SortDiagnostics(diagnostics), diagnostics, DiagnosticLess);
    }
  }

  // ------------------------------------------------------------------------- the whole answer

  /** What `policy.Validate` guarantees about identities when it reports no error. */
  ghost predicate UniqueIdentities(policy: Policy)
  {
    && DistinctKeys(policy.rules, RuleId)
    && DistinctKeys(policy.exclusions, ExclusionId)
    && forall rule :: rule in policy.rules ==> DistinctKeys(rule.attributes, AttributeKey)
  }

  ghost function CheckSelectors(ctx: Context, validation: seq<Diagnostic>, rules: seq<Rule>,
                                exclusions: seq<Exclusion>): seq<Diagnostic>
  {
    ExclusionSelectorDiagnostics(ctx, RuleSelectorDiagnostics(ctx, validation, rules), exclusions)
  }

  ghost function ResolveSorted(ctx: Context, validation: seq<Diagnostic>, rules: seq<Rule>,
                               exclusions: seq<Exclusion>, symbols: seq<Symbol>): Resolved
  {
    var selectors := CheckSelectors(ctx, validation, rules, exclusions);
    if HasErrors(selectors) then
      Resolved(Plan([], []), selectors, [])
    else
      var totals := TraceSymbols(ctx, rules, exclusions, Totals([], [], selectors, [], {}, {}), symbols);
      Resolved(Plan(totals.targets, totals.skipped),
               SortDiagnostics(RuleMatchDiagnostics(totals.diagnostics, rules, totals.matched, totals.effective)),
               totals.explanations)
  }

  /** The answer, for the policy and the code model in any order: everything is sorted by ID first. */
  ghost function ResolveSpec(matcher: SegmentMatcher, policy: Policy, validation: seq<Diagnostic>,
                             code: Option<CodeModel>): Resolved
  {
    if HasErrors(validation) then
      Resolved(Plan([], []), validation, [])
    else if code.None? then
      Resolved(Plan([], []),
               validation + [ResolutionDiagnostic(CODE_INVALID_POLICY, "", "", "code model is required")], [])
    else
      ResolveSorted(ContextOf(matcher, code.value, policy.defaults), validation, SortBy(policy.rules, RuleId),
                    SortBy(policy.exclusions, ExclusionId), SortBy(code.value.symbols, SymbolIdOf))
  }
}
