module ResolutionReports {
  // What resolution reports besides targets: skipped pairs, decisions and diagnostics.

  import opened Globs
  import opened Matching
  import opened Orders
  import opened Policies
  import opened Resolution
  import opened ResolutionProperties
  import opened SelectorChecks
  import SelectorMeaning

  // ------------------------------------------------------------------------ the specification

  ghost predicate HasCandidate(ctx: Context, rules: seq<Rule>, symbol: Symbol)
  {
    exists rule :: rule in rules && IsCandidate(ctx, symbol, rule)
  }

  ghost predicate SkipsLocally(ctx: Context, symbol: Symbol, rule: Rule, entry: SkippedTarget)
  {
    && rule.exclude.Some? && Hit(ctx, symbol, rule.selector) && Hit(ctx, symbol, rule.exclude.value)
    && entry == SkippedTarget(symbol.id, rule.id, Excluded)
  }

  ghost predicate SkipsGlobally(ctx: Context, symbol: Symbol, exclusion: Exclusion, entry: SkippedTarget)
  {
    Hit(ctx, symbol, exclusion.selector) && entry == SkippedTarget(symbol.id, exclusion.id, Excluded)
  }

  /** The candidate that comes first in the order of IDs. */
  ghost predicate IsLeastCandidate(ctx: Context, rules: seq<Rule>, symbol: Symbol, least: Rule)
  {
    && least in rules && IsCandidate(ctx, symbol, least)
    && forall rule :: rule in rules && IsCandidate(ctx, symbol, rule) ==> AtMost(least.id, rule.id)
  }

  ghost predicate LacksContext(defaults: Defaults, symbol: Symbol)
  {
    |symbol.contextIndexes| == 0 && !defaults.contextMode.RootMode?
  }

  /**
   The pairs that one symbol adds to the skipped targets: a rule that includes and excludes it, an
   exclusion that takes it from some candidate, and the first candidate if the symbol has no context.
   */
  ghost predicate IsSkipped(ctx: Context, rules: seq<Rule>, exclusions: seq<Exclusion>, symbol: Symbol,
                            entry: SkippedTarget)
  {
    || (exists rule :: rule in rules && SkipsLocally(ctx, symbol, rule, entry))
    || (HasCandidate(ctx, rules, symbol) &&
        exists exclusion :: exclusion in exclusions && SkipsGlobally(ctx, symbol, exclusion, entry))
    || (!ExcludedGlobally(ctx, symbol, exclusions) && LacksContext(ctx.defaults, symbol) &&
        exists least :: IsLeastCandidate(ctx, rules, symbol, least) &&
                        entry == SkippedTarget(symbol.id, least.id, MissingContext))
  }

  ghost predicate RuleDecides(ctx: Context, symbol: Symbol, rule: Rule, decision: Decision)
  {
    var included := Hit(ctx, symbol, rule.selector);
    || decision == Decision(rule.id, "include", included)
    || (included && rule.exclude.Some? &&
        decision == Decision(rule.id, "local-exclusion", Hit(ctx, symbol, rule.exclude.value)))
  }

  ghost predicate ExclusionDecides(ctx: Context, symbol: Symbol, exclusion: Exclusion, decision: Decision)
  {
    decision == Decision(exclusion.id, "global-exclusion", Hit(ctx, symbol, exclusion.selector))
  }

  /** Every rule and every exclusion is decided; local exclusions only where the rule includes. */
  ghost predicate IsDecision(ctx: Context, rules: seq<Rule>, exclusions: seq<Exclusion>, symbol: Symbol,
                             decision: Decision)
  {
    || (exists rule :: rule in rules && RuleDecides(ctx, symbol, rule, decision))
    || (exists exclusion :: exclusion in exclusions && ExclusionDecides(ctx, symbol, exclusion, decision))
  }

  /** The valid candidate that comes first in the order of IDs; conflicts are reported against it. */
  ghost predicate IsLeastValid(ctx: Context, rules: seq<Rule>, symbol: Symbol, least: Rule)
  {
    && least in rules && IsCandidate(ctx, symbol, least) && ValidProposal(ctx.defaults, symbol, least)
    && forall rule :: rule in rules && IsCandidate(ctx, symbol, rule) && ValidProposal(ctx.defaults, symbol, rule) ==>
         AtMost(least.id, rule.id)
  }

  ghost predicate Conflicts(ctx: Context, symbol: Symbol, first: Rule, rule: Rule, diagnostic: Diagnostic)
  {
    && ValidProposal(ctx.defaults, symbol, rule)
    && !SameBehavior(Propose(ctx.defaults, first, symbol).target, Propose(ctx.defaults, rule, symbol).target)
    && diagnostic == ConflictDiagnostic(symbol.id, first.id, rule.id)
  }

  /** What a candidate adds: what is wrong with its own proposal, and its conflict with the first valid one. */
  ghost predicate RuleReports(ctx: Context, rules: seq<Rule>, symbol: Symbol, rule: Rule, diagnostic: Diagnostic)
  {
    && IsCandidate(ctx, symbol, rule)
    && (|| diagnostic in Propose(ctx.defaults, rule, symbol).diagnostics
        || exists first :: IsLeastValid(ctx, rules, symbol, first) && Conflicts(ctx, symbol, first, rule, diagnostic))
  }

  /** The diagnostics that one symbol adds. */
  ghost predicate IsReported(ctx: Context, rules: seq<Rule>, exclusions: seq<Exclusion>, symbol: Symbol,
                             diagnostic: Diagnostic)
  {
    && !ExcludedGlobally(ctx, symbol, exclusions)
    && exists rule :: rule in rules && RuleReports(ctx, rules, symbol, rule, diagnostic)
  }

  ghost predicate HitsNothing(ctx: Context, symbols: seq<Symbol>, rule: Rule)
  {
    forall symbol :: symbol in symbols ==> !Hit(ctx, symbol, rule.selector)
  }

  ghost predicate SelectsNothing(ctx: Context, exclusions: seq<Exclusion>, symbols: seq<Symbol>, rule: Rule)
  {
    forall symbol :: symbol in symbols && IsCandidate(ctx, symbol, rule) ==> ExcludedGlobally(ctx, symbol, exclusions)
  }

  function NoMatch(ruleId: string): Diagnostic
  {
    ResolutionDiagnostic(CODE_UNRESOLVED_SYMBOL, ruleId, "", "selector matches no symbols")
  }

  function FullyExcluded(ruleId: string): Diagnostic
  {
    Diagnostic(WarningSeverity, CODE_RULE_FULLY_EXCLUDED,
               "all matched symbols are excluded; rule selects no targets", ruleId, "")
  }

  /** The diagnostics that a rule adds once all symbols are resolved. */
  ghost predicate IsReportedFor(ctx: Context, exclusions: seq<Exclusion>, symbols: seq<Symbol>, rule: Rule,
                                diagnostic: Diagnostic)
  {
    if HitsNothing(ctx, symbols, rule) then diagnostic == NoMatch(rule.id)
    else SelectsNothing(ctx, exclusions, symbols, rule) && diagnostic == FullyExcluded(rule.id)
  }

  // ------------------------------------------------------------------------------ one symbol

  lemma {:induction false} TracedSkips(ctx: Context, symbol: Symbol, start: RuleTrace, rules: seq<Rule>,
                                       entry: SkippedTarget)
    ensures entry in TraceRules(ctx, symbol, start, rules).skipped <==>
            entry in start.skipped || exists rule :: rule in rules && SkipsLocally(ctx, symbol, rule, entry)
  {
    hide Hit;
    if |rules| == 0 {
    } else {
      var init, last := rules[..|rules| - 1], rules[|rules| - 1];
      TracedSkips(ctx, symbol, start, init, entry);
      assert rules == init + [last] && last in rules;
    }
  }

  lemma {:induction false} TracedDecisions(ctx: Context, symbol: Symbol, start: RuleTrace, rules: seq<Rule>,
                                           decision: Decision)
    ensures decision in TraceRules(ctx, symbol, start, rules).decisions <==>
            decision in start.decisions || exists rule :: rule in rules && RuleDecides(ctx, symbol, rule, decision)
  {
    hide Hit;
    if |rules| == 0 {
    } else {
      var init, last := rules[..|rules| - 1], rules[|rules| - 1];
      TracedDecisions(ctx, symbol, start, init, decision);
      assert rules == init + [last] && last in rules;
    }
  }

  lemma {:induction false} TracedMatches(ctx: Context, symbol: Symbol, start: RuleTrace, rules: seq<Rule>, id: string)
    ensures id in TraceRules(ctx, symbol, start, rules).matched <==>
            id in start.matched || exists rule :: rule in rules && rule.id == id && Hit(ctx, symbol, rule.selector)
  {
    hide Hit;
    if |rules| == 0 {
    } else {
      var init, last := rules[..|rules| - 1], rules[|rules| - 1];
      TracedMatches(ctx, symbol, start, init, id);
      assert rules == init + [last] && last in rules;
    }
  }

  lemma {:induction false} TracedGlobalSkips(ctx: Context, symbol: Symbol, any: bool, start: ExclusionTrace,
                                             exclusions: seq<Exclusion>, entry: SkippedTarget)
    ensures entry in TraceExclusions(ctx, symbol, any, start, exclusions).skipped <==>
            || entry in start.skipped
            || (any && exists e :: e in exclusions && SkipsGlobally(ctx, symbol, e, entry))
  {
    hide Hit;
    if |exclusions| == 0 {
    } else {
      var init, last := exclusions[..|exclusions| - 1], exclusions[|exclusions| - 1];
      TracedGlobalSkips(ctx, symbol, any, start, init, entry);
      assert exclusions == init + [last] && last in exclusions;
    }
  }

  lemma {:induction false} TracedGlobalDecisions(ctx: Context, symbol: Symbol, any: bool, start: ExclusionTrace,
                                                 exclusions: seq<Exclusion>, decision: Decision)
    ensures decision in TraceExclusions(ctx, symbol, any, start, exclusions).decisions <==>
            decision in start.decisions || exists e :: e in exclusions && ExclusionDecides(ctx, symbol, e, decision)
  {
    hide Hit;
    if |exclusions| == 0 {
    } else {
      var init, last := exclusions[..|exclusions| - 1], exclusions[|exclusions| - 1];
      TracedGlobalDecisions(ctx, symbol, any, start, init, decision);
      assert exclusions == init + [last] && last in exclusions;
    }
  }

  /** The first valid proposal, whatever else makes the choice invalid. */
  ghost predicate IsFirstValid(proposals: seq<Proposal>, k: nat)
  {
    && k < |proposals| && !HasErrors(proposals[k].diagnostics)
    && forall i :: 0 <= i < k ==> HasErrors(proposals[i].diagnostics)
  }

  ghost predicate ConflictAt(symbolId: string, proposals: seq<Proposal>, k: nat, i: nat, diagnostic: Diagnostic)
  {
    && k < |proposals| && i < |proposals| && !HasErrors(proposals[i].diagnostics)
    && !SameBehavior(proposals[k].target, proposals[i].target)
    && diagnostic == ConflictDiagnostic(symbolId, proposals[k].target.ruleId, proposals[i].target.ruleId)
  }

  ghost predicate ProposalReports(symbolId: string, proposals: seq<Proposal>, i: nat, diagnostic: Diagnostic)
  {
    && i < |proposals|
    && (|| diagnostic in proposals[i].diagnostics
        || exists k: nat :: IsFirstValid(proposals, k) && ConflictAt(symbolId, proposals, k, i, diagnostic))
  }

  lemma {:induction false} FirstValidIsChosen(symbolId: string, proposals: seq<Proposal>)
    ensures var chosen := ChooseProposal(symbolId, proposals).chosen;
            && (chosen.None? ==> forall i :: 0 <= i < |proposals| ==> HasErrors(proposals[i].diagnostics))
            && (chosen.Some? ==> exists k: nat :: IsFirstValid(proposals, k) && chosen.value == proposals[k].target)
  {
    if |proposals| == 0 {
    } else {
      var init, last := proposals[..|proposals| - 1], |proposals| - 1;
      FirstValidIsChosen(symbolId, init);
      var before := ChooseProposal(symbolId, init).chosen;
      if before.Some? {
        var k: nat :| IsFirstValid(init, k) && before.value == init[k].target;
        assert IsFirstValid(proposals, k);
      } else if !HasErrors(proposals[last].diagnostics) {
        assert IsFirstValid(proposals, last);
      }
    }
  }

  lemma FirstValidIsUnique(proposals: seq<Proposal>, k: nat, m: nat)
    requires IsFirstValid(proposals, k) && IsFirstValid(proposals, m)
    ensures k == m
  {
  }

  lemma EarlierReports(symbolId: string, proposals: seq<Proposal>, i: nat, diagnostic: Diagnostic)
    requires i < |proposals| - 1
    ensures ProposalReports(symbolId, proposals, i, diagnostic) <==>
            ProposalReports(symbolId, proposals[..|proposals| - 1], i, diagnostic)
  {
    hide HasErrors, SameBehavior;
    var init := proposals[..|proposals| - 1];
    forall k: nat
      ensures IsFirstValid(proposals, k) && ConflictAt(symbolId, proposals, k, i, diagnostic) <==>
              IsFirstValid(init, k) && ConflictAt(symbolId, init, k, i, diagnostic)
    {
    }
  }

  /** What one proposal adds to the diagnostics of a choice. */
  function Added(symbolId: string, chosen: Option<Target>, proposal: Proposal): seq<Diagnostic>
  {
    proposal.diagnostics +
    if !HasErrors(proposal.diagnostics) && chosen.Some? && !SameBehavior(chosen.value, proposal.target)
    then [ConflictDiagnostic(symbolId, chosen.value.ruleId, proposal.target.ruleId)] else []
  }

  lemma ChoiceGrows(symbolId: string, choice: Choice, proposal: Proposal)
    ensures ChooseAmong(symbolId, choice, proposal).diagnostics ==
            choice.diagnostics + Added(symbolId, choice.chosen, proposal)
  {
    hide HasErrors;
  }

  lemma LastReports(symbolId: string, proposals: seq<Proposal>, diagnostic: Diagnostic)
    requires |proposals| > 0
    ensures var init, last := proposals[..|proposals| - 1], |proposals| - 1;
            ProposalReports(symbolId, proposals, last, diagnostic) <==>
            diagnostic in Added(symbolId, ChooseProposal(symbolId, init).chosen, proposals[last])
  {
    hide HasErrors, ChooseProposal;
    var init, last := proposals[..|proposals| - 1], |proposals| - 1;
    FirstValidIsChosen(symbolId, init);
    var chosen := ChooseProposal(symbolId, init).chosen;
    if chosen.None? {
      assert forall i :: 0 <= i < |init| ==> proposals[i] == init[i];
    } else {
      var k: nat :| IsFirstValid(init, k) && chosen.value == init[k].target;
      assert IsFirstValid(proposals, k);
      forall m: nat | IsFirstValid(proposals, m)
        ensures m == k
      {
        FirstValidIsUnique(proposals, k, m);
      }
      assert ProposalReports(symbolId, proposals, last, diagnostic) <==>
             diagnostic in proposals[last].diagnostics || ConflictAt(symbolId, proposals, k, last, diagnostic);
    }
  }

  /** The diagnostics of a choice: those of all proposals, and the conflicts with the first valid one. */
  lemma {:induction false} ChoiceReports(symbolId: string, proposals: seq<Proposal>, diagnostic: Diagnostic)
    ensures diagnostic in ChooseProposal(symbolId, proposals).diagnostics <==>
            exists i: nat :: ProposalReports(symbolId, proposals, i, diagnostic)
  {
    if |proposals| == 0 {
    } else {
      hide ProposalReports, HasErrors;
      var init, last := proposals[..|proposals| - 1], |proposals| - 1;
      ChoiceReports(symbolId, init, diagnostic);
      LastReports(symbolId, proposals, diagnostic);
      forall i: nat | i < last
        ensures ProposalReports(symbolId, proposals, i, diagnostic) <==>
                ProposalReports(symbolId, init, i, diagnostic)
      {
        EarlierReports(symbolId, proposals, i, diagnostic);
      }
      ReportsAreListed(symbolId, init);
      ReportsAreListed(symbolId, proposals);
      ChoiceGrows(symbolId, ChooseProposal(symbolId, init), proposals[last]);
    }
  }

  lemma ReportsAreListed(symbolId: string, proposals: seq<Proposal>)
    ensures forall i: nat, diagnostic :: ProposalReports(symbolId, proposals, i, diagnostic) ==> i < |proposals|
  {
  }

  ghost predicate Leads(proposals: seq<Proposal>, candidates: seq<Rule>, k: nat, first: Rule)
  {
    IsFirstValid(proposals, k) && k < |candidates| && candidates[k] == first
  }

  /** Over candidates in the order of their IDs, the first valid proposal is the least valid rule's. */
  lemma FirstValidIsLeast(ctx: Context, rules: seq<Rule>, symbol: Symbol, candidates: seq<Rule>,
                          proposals: seq<Proposal>, first: Rule)
    requires SortedBy(rules, RuleId) && DistinctKeys(rules, RuleId)
    requires candidates == CandidatesOf(ctx, symbol, rules) && proposals == Proposals(ctx.defaults, symbol, candidates)
    ensures IsLeastValid(ctx, rules, symbol, first) <==> exists k: nat :: Leads(proposals, candidates, k, first)
  {
    hide Propose, Hit, HasErrors;
    CandidatesContain(ctx, symbol, rules);
    CandidatesStaySorted(ctx, symbol, rules);
    assert forall i :: 0 <= i < |candidates| ==> candidates[i] in candidates;
    if IsLeastValid(ctx, rules, symbol, first) {
      assert first in candidates;
      var n: nat :| n < |candidates| && candidates[n] == first;
      var k := FirstValidUpTo(proposals, n);
      LeastFirst(candidates, k, n);
      assert AtMost(first.id, candidates[k].id);
      LessIsTotal(first.id, candidates[k].id);
      SameIdSameRule(rules, first, candidates[k]);
      assert Leads(proposals, candidates, k, first);
    }
    if k: nat :| Leads(proposals, candidates, k, first) {
      forall rule | rule in rules && IsCandidate(ctx, symbol, rule) && ValidProposal(ctx.defaults, symbol, rule)
        ensures AtMost(first.id, rule.id)
      {
        assert rule in candidates;
        var i: nat :| i < |candidates| && candidates[i] == rule;
        assert !HasErrors(proposals[i].diagnostics);
        LeastFirst(candidates, k, i);
      }
    }
  }

  lemma LeastFirst(candidates: seq<Rule>, k: nat, i: nat)
    requires SortedBy(candidates, RuleId) && k <= i < |candidates|
    ensures AtMost(candidates[k].id, candidates[i].id)
  {
    assert AtMost(RuleId(candidates[k]), RuleId(candidates[i])) by {
      LessIsTotal(candidates[k].id, candidates[i].id);
    }
  }

  lemma {:induction false} FirstValidUpTo(proposals: seq<Proposal>, n: nat) returns (k: nat)
    requires n < |proposals| && !HasErrors(proposals[n].diagnostics)
    ensures k <= n && IsFirstValid(proposals, k)
  {
    hide HasErrors;
    if i: nat :| i < n && !HasErrors(proposals[i].diagnostics) {
      k := FirstValidUpTo(proposals, i);
    } else {
      k := n;
    }
  }

  lemma CandidateReports(ctx: Context, rules: seq<Rule>, symbol: Symbol, diagnostic: Diagnostic)
    requires SortedBy(rules, RuleId) && DistinctKeys(rules, RuleId)
    ensures diagnostic in Choose(ctx.defaults, symbol, CandidatesOf(ctx, symbol, rules)).diagnostics <==>
            exists rule :: rule in rules && RuleReports(ctx, rules, symbol, rule, diagnostic)
  {
    hide Propose, IsCandidate, HasErrors, IsLeastValid, SameBehavior, Leads;
    var candidates := CandidatesOf(ctx, symbol, rules);
    var proposals := Proposals(ctx.defaults, symbol, candidates);
    CandidatesContain(ctx, symbol, rules);
    ChoiceReports(symbol.id, proposals, diagnostic);
    forall first
      ensures IsLeastValid(ctx, rules, symbol, first) <==>
              exists k: nat :: Leads(proposals, candidates, k, first)
    {
      FirstValidIsLeast(ctx, rules, symbol, candidates, proposals, first);
    }
    forall i: nat | i < |candidates|
      ensures candidates[i] in rules
      ensures ProposalReports(symbol.id, proposals, i, diagnostic) <==>
              RuleReports(ctx, rules, symbol, candidates[i], diagnostic)
    {
      assert candidates[i] in candidates;
      ReportsCarryOver(ctx, rules, symbol, candidates, i, diagnostic);
    }
    if rule :| rule in rules && RuleReports(ctx, rules, symbol, rule, diagnostic) {
      assert rule in candidates;
      var i: nat :| i < |candidates| && candidates[i] == rule;
      assert ProposalReports(symbol.id, proposals, i, diagnostic);
    }
    if i: nat :| ProposalReports(symbol.id, proposals, i, diagnostic) {
      assert RuleReports(ctx, rules, symbol, candidates[i], diagnostic);
    }
  }

  lemma ReportsCarryOver(ctx: Context, rules: seq<Rule>, symbol: Symbol, candidates: seq<Rule>, i: nat,
                         diagnostic: Diagnostic)
    requires i < |candidates| && IsCandidate(ctx, symbol, candidates[i])
    requires var proposals := Proposals(ctx.defaults, symbol, candidates);
             forall first :: IsLeastValid(ctx, rules, symbol, first) <==>
                             exists k: nat :: Leads(proposals, candidates, k, first)
    ensures ProposalReports(symbol.id, Proposals(ctx.defaults, symbol, candidates), i, diagnostic) <==>
            RuleReports(ctx, rules, symbol, candidates[i], diagnostic)
  {
    hide IsCandidate, HasErrors, IsLeastValid, SameBehavior, TargetContext, NameDiagnostics, SortBy, SpanName;
    var proposals := Proposals(ctx.defaults, symbol, candidates);
    if k: nat :| IsFirstValid(proposals, k) && ConflictAt(symbol.id, proposals, k, i, diagnostic) {
      assert Leads(proposals, candidates, k, candidates[k]);
      assert IsLeastValid(ctx, rules, symbol, candidates[k]);
      assert Conflicts(ctx, symbol, candidates[k], candidates[i], diagnostic);
    }
    if first :| IsLeastValid(ctx, rules, symbol, first) && Conflicts(ctx, symbol, first, candidates[i], diagnostic) {
      var k: nat :| Leads(proposals, candidates, k, first);
      assert ConflictAt(symbol.id, proposals, k, i, diagnostic);
    }
  }

  /** Without a context every proposal is invalid. */
  lemma LackingContextIsReported(ctx: Context, rules: seq<Rule>, symbol: Symbol)
    requires LacksContext(ctx.defaults, symbol) && |CandidatesOf(ctx, symbol, rules)| > 0
    ensures HasErrors(Choose(ctx.defaults, symbol, CandidatesOf(ctx, symbol, rules)).diagnostics)
  {
    hide SpanName, Hit, SortBy;
    var candidates := CandidatesOf(ctx, symbol, rules);
    var proposals := Proposals(ctx.defaults, symbol, candidates);
    var missing := Propose(ctx.defaults, candidates[0], symbol).diagnostics[0];
    assert proposals[0].diagnostics[0] == missing && missing in proposals[0].diagnostics;
    assert ProposalReports(symbol.id, proposals, 0, missing);
    ChoiceReports(symbol.id, proposals, missing);
  }

  lemma FirstCandidate(ctx: Context, rules: seq<Rule>, symbol: Symbol)
    requires SortedBy(rules, RuleId) && DistinctKeys(rules, RuleId)
    ensures var candidates := CandidatesOf(ctx, symbol, rules);
            && (HasCandidate(ctx, rules, symbol) <==> |candidates| > 0)
            && (forall least :: IsLeastCandidate(ctx, rules, symbol, least) <==>
                                |candidates| > 0 && least == candidates[0])
  {
    hide IsCandidate;
    var candidates := CandidatesOf(ctx, symbol, rules);
    CandidatesContain(ctx, symbol, rules);
    CandidatesStaySorted(ctx, symbol, rules);
    if |candidates| > 0 {
      assert candidates[0] in candidates;
      forall rule | rule in candidates
        ensures AtMost(candidates[0].id, rule.id)
      {
        FirstIsLeast(candidates, rule);
      }
      forall least | IsLeastCandidate(ctx, rules, symbol, least)
        ensures least == candidates[0]
      {
        assert least in candidates;
        LessIsTotal(least.id, candidates[0].id);
        SameIdSameRule(rules, least, candidates[0]);
      }
    }
  }

  lemma StepSkips(ctx: Context, rules: seq<Rule>, exclusions: seq<Exclusion>, totals: Totals, symbol: Symbol,
                  entry: SkippedTarget)
    requires SortedBy(rules, RuleId) && DistinctKeys(rules, RuleId)
    ensures entry in TraceSymbol(ctx, rules, exclusions, totals, symbol).skipped <==>
            entry in totals.skipped || IsSkipped(ctx, rules, exclusions, symbol, entry)
  {
    hide Hit, Choose, ChosenTarget, SortedBy, DistinctKeys, HasErrors, SkipsLocally, SkipsGlobally, HasCandidate;
    hide IsLeastCandidate, ExcludedGlobally;
    var start := RuleTrace([], totals.skipped, [], totals.matched);
    var trace := TraceRules(ctx, symbol, start, rules);
    var any := |trace.candidates| > 0;
    var decided := ExclusionTrace(trace.decisions, trace.skipped, false);
    TracedCandidates(ctx, symbol, start, rules);
    TracedSkips(ctx, symbol, start, rules, entry);
    TracedGlobalSkips(ctx, symbol, any, decided, exclusions, entry);
    FirstCandidate(ctx, rules, symbol);
    if any {
      TracedExclusion(ctx, symbol, decided, exclusions);
      if LacksContext(ctx.defaults, symbol) {
        LackingContextIsReported(ctx, rules, symbol);
      }
    }
  }

  lemma StepReports(ctx: Context, rules: seq<Rule>, exclusions: seq<Exclusion>, totals: Totals, symbol: Symbol,
                    diagnostic: Diagnostic)
    requires SortedBy(rules, RuleId) && DistinctKeys(rules, RuleId)
    ensures diagnostic in TraceSymbol(ctx, rules, exclusions, totals, symbol).diagnostics <==>
            diagnostic in totals.diagnostics || IsReported(ctx, rules, exclusions, symbol, diagnostic)
  {
    hide Hit, Choose, ChosenTarget, SortedBy, DistinctKeys, HasErrors, ExcludedGlobally, RuleReports;
    var start := RuleTrace([], totals.skipped, [], totals.matched);
    var trace := TraceRules(ctx, symbol, start, rules);
    TracedCandidates(ctx, symbol, start, rules);
    FirstCandidate(ctx, rules, symbol);
    CandidateReports(ctx, rules, symbol, diagnostic);
    if |trace.candidates| > 0 {
      TracedExclusion(ctx, symbol, ExclusionTrace(trace.decisions, trace.skipped, false), exclusions);
    } else {
      OnlyCandidatesReport(ctx, rules, symbol, diagnostic);
    }
  }

  lemma OnlyCandidatesReport(ctx: Context, rules: seq<Rule>, symbol: Symbol, diagnostic: Diagnostic)
    requires !HasCandidate(ctx, rules, symbol)
    ensures forall rule :: rule in rules ==> !RuleReports(ctx, rules, symbol, rule, diagnostic)
  {
  }

  /** Which rules count as matched and as effective after one more symbol. */
  lemma StepMarks(ctx: Context, rules: seq<Rule>, exclusions: seq<Exclusion>, totals: Totals, symbol: Symbol,
                  id: string)
    ensures var after := TraceSymbol(ctx, rules, exclusions, totals, symbol);
            && (id in after.matched <==> id in totals.matched || Marks(ctx, rules, symbol, id))
            && (id in after.effective <==>
                id in totals.effective || MarksEffective(ctx, rules, exclusions, symbol, id))
  {
    hide Hit, Choose, ChosenTarget, HasErrors, ExcludedGlobally;
    var start := RuleTrace([], totals.skipped, [], totals.matched);
    var trace := TraceRules(ctx, symbol, start, rules);
    TracedCandidates(ctx, symbol, start, rules);
    TracedMatches(ctx, symbol, start, rules, id);
    CandidatesContain(ctx, symbol, rules);
    if |trace.candidates| > 0 {
      TracedExclusion(ctx, symbol, ExclusionTrace(trace.decisions, trace.skipped, false), exclusions);
    }
  }

  ghost predicate Marks(ctx: Context, rules: seq<Rule>, symbol: Symbol, id: string)
  {
    exists rule :: rule in rules && rule.id == id && Hit(ctx, symbol, rule.selector)
  }

  ghost predicate MarksEffective(ctx: Context, rules: seq<Rule>, exclusions: seq<Exclusion>, symbol: Symbol, id: string)
  {
    && !ExcludedGlobally(ctx, symbol, exclusions)
    && exists rule :: rule in rules && rule.id == id && IsCandidate(ctx, symbol, rule)
  }

  ghost predicate Records(ctx: Context, rules: seq<Rule>, exclusions: seq<Exclusion>, symbol: Symbol,
                          explanation: Explanation)
  {
    && explanation.symbolId == symbol.id
    && forall decision :: decision in explanation.decisions <==> IsDecision(ctx, rules, exclusions, symbol, decision)
  }

  lemma StepRecords(ctx: Context, rules: seq<Rule>, exclusions: seq<Exclusion>, totals: Totals, symbol: Symbol)
    ensures var after := TraceSymbol(ctx, rules, exclusions, totals, symbol);
            && |after.explanations| == |totals.explanations| + 1
            && after.explanations[..|totals.explanations|] == totals.explanations
            && Records(ctx, rules, exclusions, symbol, after.explanations[|totals.explanations|])
  {
    hide Hit, Choose, ChosenTarget, HasErrors, RuleDecides, ExclusionDecides;
    SymbolStep(ctx, rules, exclusions, totals, symbol);
    var start := RuleTrace([], totals.skipped, [], totals.matched);
    var trace := TraceRules(ctx, symbol, start, rules);
    var decided := ExclusionTrace(trace.decisions, trace.skipped, false);
    var after := TraceSymbol(ctx, rules, exclusions, totals, symbol);
    var explanation := after.explanations[|totals.explanations|];
    assert explanation.decisions ==
           TraceExclusions(ctx, symbol, |trace.candidates| > 0, decided, exclusions).decisions;
    forall decision
      ensures decision in explanation.decisions <==> IsDecision(ctx, rules, exclusions, symbol, decision)
    {
      TracedDecisions(ctx, symbol, start, rules, decision);
      TracedGlobalDecisions(ctx, symbol, |trace.candidates| > 0, decided, exclusions, decision);
    }
  }

  // ------------------------------------------------------------------------------ all symbols

  lemma {:induction false} AllSkips(ctx: Context, rules: seq<Rule>, exclusions: seq<Exclusion>, start: Totals,
                     symbols: seq<Symbol>, entry: SkippedTarget)
    requires SortedBy(rules, RuleId) && DistinctKeys(rules, RuleId)
    ensures entry in TraceSymbols(ctx, rules, exclusions, start, symbols).skipped <==>
            || entry in start.skipped
            || exists symbol :: symbol in symbols && IsSkipped(ctx, rules, exclusions, symbol, entry)
  {
    hide TraceSymbol, SortedBy, DistinctKeys, IsSkipped;
    if |symbols| == 0 {
    } else {
      var init, last := symbols[..|symbols| - 1], symbols[|symbols| - 1];
      AllSkips(ctx, rules, exclusions, start, init, entry);
      StepSkips(ctx, rules, exclusions, TraceSymbols(ctx, rules, exclusions, start, init), last, entry);
      assert symbols == init + [last] && last in symbols;
    }
  }

  lemma {:induction false} AllReports(ctx: Context, rules: seq<Rule>, exclusions: seq<Exclusion>, start: Totals,
                     symbols: seq<Symbol>, diagnostic: Diagnostic)
    requires SortedBy(rules, RuleId) && DistinctKeys(rules, RuleId)
    ensures diagnostic in TraceSymbols(ctx, rules, exclusions, start, symbols).diagnostics <==>
            || diagnostic in start.diagnostics
            || exists symbol :: symbol in symbols && IsReported(ctx, rules, exclusions, symbol, diagnostic)
  {
    hide TraceSymbol, SortedBy, DistinctKeys, IsReported;
    if |symbols| == 0 {
    } else {
      var init, last := symbols[..|symbols| - 1], symbols[|symbols| - 1];
      AllReports(ctx, rules, exclusions, start, init, diagnostic);
      StepReports(ctx, rules, exclusions, TraceSymbols(ctx, rules, exclusions, start, init), last, diagnostic);
      assert symbols == init + [last] && last in symbols;
    }
  }

  lemma {:induction false} AllMarks(ctx: Context, rules: seq<Rule>, exclusions: seq<Exclusion>, start: Totals,
                     symbols: seq<Symbol>, id: string)
    ensures var after := TraceSymbols(ctx, rules, exclusions, start, symbols);
            && (id in after.matched <==>
                id in start.matched || exists symbol :: symbol in symbols && Marks(ctx, rules, symbol, id))
            && (id in after.effective <==>
                || id in start.effective
                || exists symbol :: symbol in symbols && MarksEffective(ctx, rules, exclusions, symbol, id))
  {
    hide TraceSymbol, SortedBy, DistinctKeys, Marks, MarksEffective;
    if |symbols| == 0 {
    } else {
      var init, last := symbols[..|symbols| - 1], symbols[|symbols| - 1];
      AllMarks(ctx, rules, exclusions, start, init, id);
      StepMarks(ctx, rules, exclusions, TraceSymbols(ctx, rules, exclusions, start, init), last, id);
      assert symbols == init + [last] && last in symbols;
    }
  }

  lemma {:induction false} AllRecords(ctx: Context, rules: seq<Rule>, exclusions: seq<Exclusion>, start: Totals,
                                      symbols: seq<Symbol>)
    requires start.explanations == []
    ensures var explanations := TraceSymbols(ctx, rules, exclusions, start, symbols).explanations;
            && |explanations| == |symbols|
            && forall i :: 0 <= i < |symbols| ==> Records(ctx, rules, exclusions, symbols[i], explanations[i])
  {
    hide TraceSymbol, Records;
    if |symbols| == 0 {
    } else {
      var init, last := symbols[..|symbols| - 1], symbols[|symbols| - 1];
      var before := TraceSymbols(ctx, rules, exclusions, start, init);
      AllRecords(ctx, rules, exclusions, start, init);
      StepRecords(ctx, rules, exclusions, before, last);
      var explanations := TraceSymbol(ctx, rules, exclusions, before, last).explanations;
      assert forall i :: 0 <= i < |init| ==> explanations[i] == explanations[..|init|][i] && symbols[i] == init[i];
    }
  }

  // ------------------------------------------------------------------------------ unused rules

  lemma {:induction false} RuleMatchMeaning(start: seq<Diagnostic>, rules: seq<Rule>, matched: set<string>,
                                            effective: set<string>, diagnostic: Diagnostic)
    ensures diagnostic in RuleMatchDiagnostics(start, rules, matched, effective) <==>
            || diagnostic in start
            || exists rule :: rule in rules && Unused(matched, effective, rule, diagnostic)
  {
    if |rules| == 0 {
    } else {
      var init, last := rules[..|rules| - 1], rules[|rules| - 1];
      RuleMatchMeaning(start, init, matched, effective, diagnostic);
      assert rules == init + [last] && last in rules;
    }
  }

  predicate Unused(matched: set<string>, effective: set<string>, rule: Rule, diagnostic: Diagnostic)
  {
    if rule.id !in matched then diagnostic == NoMatch(rule.id)
    else rule.id !in effective && diagnostic == FullyExcluded(rule.id)
  }

  // ------------------------------------------------------------------------- the whole answer

  /** Sorting by ID keeps the rules, exclusions and symbols. */
  lemma SortedParts(policy: Policy, code: CodeModel)
    requires UniqueIdentities(policy)
    ensures var rules := SortBy(policy.rules, RuleId);
            && SortedBy(rules, RuleId) && DistinctKeys(rules, RuleId)
            && (forall rule :: rule in rules <==> rule in policy.rules)
    ensures forall e :: e in SortBy(policy.exclusions, ExclusionId) <==> e in policy.exclusions
    ensures forall symbol :: symbol in SortBy(code.symbols, SymbolIdOf) <==> symbol in code.symbols
  {
    hide SortBy, SortedBy;
    SortBySorts(policy.rules, RuleId);
    SortBySorts(policy.exclusions, ExclusionId);
    SortBySorts(code.symbols, SymbolIdOf);
    SameElements(SortBy(policy.rules, RuleId), policy.rules);
    SameElements(SortBy(policy.exclusions, ExclusionId), policy.exclusions);
    SameElements(SortBy(code.symbols, SymbolIdOf), code.symbols);
    DistinctKeysOfPermutation(policy.rules, SortBy(policy.rules, RuleId), RuleId);
  }

  lemma SkipsIgnoreOrder(ctx: Context, rules: seq<Rule>, rules': seq<Rule>, exclusions: seq<Exclusion>,
                         exclusions': seq<Exclusion>, symbol: Symbol, entry: SkippedTarget)
    requires forall r :: r in rules <==> r in rules'
    requires forall e :: e in exclusions <==> e in exclusions'
    ensures IsSkipped(ctx, rules, exclusions, symbol, entry) <==> IsSkipped(ctx, rules', exclusions', symbol, entry)
  {
    hide Hit, SkipsLocally, SkipsGlobally, LacksContext, IsCandidate;
    assert forall least :: IsLeastCandidate(ctx, rules, symbol, least) <==>
                           IsLeastCandidate(ctx, rules', symbol, least);
  }

  lemma ReportsIgnoreOrder(ctx: Context, rules: seq<Rule>, rules': seq<Rule>, exclusions: seq<Exclusion>,
                           exclusions': seq<Exclusion>, symbol: Symbol, diagnostic: Diagnostic)
    requires forall r :: r in rules <==> r in rules'
    requires forall e :: e in exclusions <==> e in exclusions'
    ensures IsReported(ctx, rules, exclusions, symbol, diagnostic) <==>
            IsReported(ctx, rules', exclusions', symbol, diagnostic)
  {
    hide Hit, Conflicts, Propose, IsCandidate, ValidProposal;
    assert forall first :: IsLeastValid(ctx, rules, symbol, first) <==> IsLeastValid(ctx, rules', symbol, first);
  }

  lemma DecisionsIgnoreOrder(ctx: Context, rules: seq<Rule>, rules': seq<Rule>, exclusions: seq<Exclusion>,
                             exclusions': seq<Exclusion>, symbol: Symbol, decision: Decision)
    requires forall r :: r in rules <==> r in rules'
    requires forall e :: e in exclusions <==> e in exclusions'
    ensures IsDecision(ctx, rules, exclusions, symbol, decision) <==>
            IsDecision(ctx, rules', exclusions', symbol, decision)
  {
    hide RuleDecides, ExclusionDecides;
  }

  /** Resolution goes on to the symbols exactly if validation found no error and every selector is accepted. */
  lemma ProceedsMeaning(matcher: SegmentMatcher, policy: Policy, validation: seq<Diagnostic>, code: CodeModel)
    requires UniqueIdentities(policy)
    ensures var ctx := ContextOf(matcher, code, policy.defaults);
            Proceeds(matcher, policy, validation, code) <==>
            && !HasErrors(validation)
            && AcceptedSelectors(ctx, policy.rules, policy.exclusions)
  {
    hide HasErrors, Accepted, AcceptedRule, CheckSelectors, SortBy;
    SortedParts(policy, code);
    if !HasErrors(validation) {
      SelectorCheckMeaning(ContextOf(matcher, code, policy.defaults), validation, SortBy(policy.rules, RuleId),
                           SortBy(policy.exclusions, ExclusionId));
    }
  }

  /** Exactly these pairs are skipped. */
  lemma SkippedMeaning(matcher: SegmentMatcher, policy: Policy, validation: seq<Diagnostic>, code: CodeModel,
                       entry: SkippedTarget)
    requires UniqueIdentities(policy) && Proceeds(matcher, policy, validation, code)
    ensures var ctx := ContextOf(matcher, code, policy.defaults);
            entry in ResolveSpec(matcher, policy, validation, Some(code)).plan.skipped <==>
            exists symbol :: symbol in code.symbols && IsSkipped(ctx, policy.rules, policy.exclusions, symbol, entry)
  {
    hide IsSkipped, TraceSymbols, CheckSelectors, SortBy, SortedBy, DistinctKeys, UniqueIdentities, HasErrors;
    var ctx := ContextOf(matcher, code, policy.defaults);
    var rules, exclusions := SortBy(policy.rules, RuleId), SortBy(policy.exclusions, ExclusionId);
    var symbols := SortBy(code.symbols, SymbolIdOf);
    SortedParts(policy, code);
    AllSkips(ctx, rules, exclusions, Totals([], [], CheckSelectors(ctx, validation, rules, exclusions), [], {}, {}),
             symbols, entry);
    forall symbol
      ensures IsSkipped(ctx, policy.rules, policy.exclusions, symbol, entry) <==>
              IsSkipped(ctx, rules, exclusions, symbol, entry)
    {
      SkipsIgnoreOrder(ctx, policy.rules, rules, policy.exclusions, exclusions, symbol, entry);
    }
  }

  /** A rule is unused by its marks exactly if it hits nothing, or selects nothing of what it hits. */
  lemma UnusedMeaning(ctx: Context, rules: seq<Rule>, exclusions: seq<Exclusion>, symbols: seq<Symbol>,
                      totals: Totals, rule: Rule, diagnostic: Diagnostic)
    requires DistinctKeys(rules, RuleId) && rule in rules
    requires rule.id in totals.matched <==> exists symbol :: symbol in symbols && Marks(ctx, rules, symbol, rule.id)
    requires rule.id in totals.effective <==>
             exists symbol :: symbol in symbols && MarksEffective(ctx, rules, exclusions, symbol, rule.id)
    ensures Unused(totals.matched, totals.effective, rule, diagnostic) <==>
            IsReportedFor(ctx, exclusions, symbols, rule, diagnostic)
  {
    hide Hit, IsCandidate, ExcludedGlobally, NoMatch, FullyExcluded;
    forall symbol
      ensures Marks(ctx, rules, symbol, rule.id) <==> Hit(ctx, symbol, rule.selector)
      ensures MarksEffective(ctx, rules, exclusions, symbol, rule.id) <==>
              !ExcludedGlobally(ctx, symbol, exclusions) && IsCandidate(ctx, symbol, rule)
    {
      SameRules(rules, rule);
    }
  }

  lemma SameRules(rules: seq<Rule>, rule: Rule)
    requires DistinctKeys(rules, RuleId) && rule in rules
    ensures forall other :: other in rules && other.id == rule.id ==> other == rule
  {
  }

  /**
   Exactly these diagnostics are reported, in order: those of the validation, those of the symbols,
   and one for every rule that hits no symbol or selects none of those it hits.
   */
  lemma DiagnosticsMeaning(matcher: SegmentMatcher, policy: Policy, validation: seq<Diagnostic>, code: CodeModel,
                           diagnostic: Diagnostic)
    requires UniqueIdentities(policy) && Proceeds(matcher, policy, validation, code)
    ensures var ctx := ContextOf(matcher, code, policy.defaults);
            var diagnostics := ResolveSpec(matcher, policy, validation, Some(code)).diagnostics;
            && NoInversion(diagnostics, DiagnosticLess)
            && (diagnostic in diagnostics <==>
                || diagnostic in validation
                || (exists symbol :: symbol in code.symbols &&
                                     IsReported(ctx, policy.rules, policy.exclusions, symbol, diagnostic))
                || (exists rule :: rule in policy.rules &&
                                   IsReportedFor(ctx, policy.exclusions, code.symbols, rule, diagnostic)))
  {
    hide IsReported, IsReportedFor, TraceSymbols, CheckSelectors, SortBy, SortedBy, DistinctKeys, UniqueIdentities;
    hide HasErrors, NoInversion, DiagnosticLess, AcceptedSelectors, RuleMatchDiagnostics, Unused, SortDiagnostics;
    var ctx := ContextOf(matcher, code, policy.defaults);
    var rules, exclusions := SortBy(policy.rules, RuleId), SortBy(policy.exclusions, ExclusionId);
    var symbols := SortBy(code.symbols, SymbolIdOf);
    SortedParts(policy, code);
    SelectorCheckMeaning(ctx, validation, rules, exclusions);
    var start := Totals([], [], validation, [], {}, {});
    var totals := TraceSymbols(ctx, rules, exclusions, start, symbols);
    var reported := RuleMatchDiagnostics(totals.diagnostics, rules, totals.matched, totals.effective);
    SortedDiagnostics(reported);
    RuleMatchMeaning(totals.diagnostics, rules, totals.matched, totals.effective, diagnostic);
    AllReports(ctx, rules, exclusions, start, symbols, diagnostic);
    forall symbol
      ensures IsReported(ctx, policy.rules, policy.exclusions, symbol, diagnostic) <==>
              IsReported(ctx, rules, exclusions, symbol, diagnostic)
    {
      ReportsIgnoreOrder(ctx, policy.rules, rules, policy.exclusions, exclusions, symbol, diagnostic);
    }
    forall rule | rule in rules
      ensures Unused(totals.matched, totals.effective, rule, diagnostic) <==>
              IsReportedFor(ctx, policy.exclusions, code.symbols, rule, diagnostic)
    {
      AllMarks(ctx, rules, exclusions, start, symbols, rule.id);
      UnusedMeaning(ctx, rules, exclusions, symbols, totals, rule, diagnostic);
      RuleReportsIgnoreOrder(ctx, exclusions, policy.exclusions, symbols, code.symbols, rule, diagnostic);
    }
  }

  lemma RuleReportsIgnoreOrder(ctx: Context, exclusions: seq<Exclusion>, exclusions': seq<Exclusion>,
                               symbols: seq<Symbol>, symbols': seq<Symbol>, rule: Rule, diagnostic: Diagnostic)
    requires forall e :: e in exclusions <==> e in exclusions'
    requires forall symbol :: symbol in symbols <==> symbol in symbols'
    ensures IsReportedFor(ctx, exclusions, symbols, rule, diagnostic) <==>
            IsReportedFor(ctx, exclusions', symbols', rule, diagnostic)
  {
    hide Hit, IsCandidate;
    assert forall symbol :: ExcludedGlobally(ctx, symbol, exclusions) <==> ExcludedGlobally(ctx, symbol, exclusions');
  }

  lemma SortedDiagnostics(diagnostics: seq<Diagnostic>)
    ensures NoInversion(SortDiagnostics(diagnostics), DiagnosticLess)
    ensures forall d :: d in SortDiagnostics(diagnostics) <==> d in diagnostics
  {
    hide SortDiagnostics, DiagnosticLess, NoInversion;
    DiagnosticsAreSorted(diagnostics, SortDiagnostics(diagnostics));
    SameElements(SortDiagnostics(diagnostics), diagnostics);
  }

  /** The explanation of a symbol lists exactly its decisions. */
  lemma DecisionsMeaning(matcher: SegmentMatcher, policy: Policy, validation: seq<Diagnostic>, code: CodeModel,
                         symbol: Symbol, explanation: Explanation, decision: Decision)
    requires UniqueIdentities(policy) && DistinctKeys(code.symbols, SymbolIdOf)
    requires Proceeds(matcher, policy, validation, code)
    requires symbol in code.symbols && explanation.symbolId == symbol.id
    requires explanation in ResolveSpec(matcher, policy, validation, Some(code)).explanations
    ensures var ctx := ContextOf(matcher, code, policy.defaults);
            decision in explanation.decisions <==>
            IsDecision(ctx, policy.rules, policy.exclusions, symbol, decision)
  {
    hide IsDecision, TraceSymbols, CheckSelectors, SortBy, SortedBy, DistinctKeys, UniqueIdentities, HasErrors;
    var ctx := ContextOf(matcher, code, policy.defaults);
    var rules, exclusions := SortBy(policy.rules, RuleId), SortBy(policy.exclusions, ExclusionId);
    var symbols := SortBy(code.symbols, SymbolIdOf);
    SortedParts(policy, code);
    var start := Totals([], [], CheckSelectors(ctx, validation, rules, exclusions), [], {}, {});
    AllRecords(ctx, rules, exclusions, start, symbols);
    var i :| 0 <= i < |symbols| && TraceSymbols(ctx, rules, exclusions, start, symbols).explanations[i] == explanation;
    assert Records(ctx, rules, exclusions, symbols[i], explanation);
    assert symbols[i] in symbols;
    SameKeySameElement(code.symbols, SymbolIdOf, symbols[i], symbol);
    DecisionsIgnoreOrder(ctx, policy.rules, rules, policy.exclusions, exclusions, symbol, decision);
  }

  // ------------------------------------------------------------------------- codes and causes

  /** The diagnostics of a rule, and of a conflict, with their codes. */
  lemma RuleDiagnosticsAre(ruleId: string, symbolId: string, chosenId: string)
    ensures NoMatch(ruleId) ==
            Diagnostic(ErrorSeverity, "OTP1002", "selector matches no symbols", ruleId, "")
    ensures FullyExcluded(ruleId) ==
            Diagnostic(WarningSeverity, "OTP1006",
                       "all matched symbols are excluded; rule selects no targets", ruleId, "")
    ensures ConflictDiagnostic(symbolId, chosenId, ruleId) ==
            Diagnostic(ErrorSeverity, "OTP1003", "instrumentation conflicts with rule " + chosenId, ruleId, symbolId)
  {
  }

  lemma ContextDiagnosticsAre(mode: ContextMode, ruleId: string, symbol: Symbol, d: Diagnostic)
    ensures d in TargetContext(mode, ruleId, symbol).1 <==>
            || (|symbol.contextIndexes| == 0 && mode != RootMode &&
                d == Diagnostic(ErrorSeverity, "OTP3001", "selected target has no context.Context argument", ruleId,
                                symbol.id))
            || (|symbol.contextIndexes| > 1 &&
                d == Diagnostic(ErrorSeverity, "OTP3002",
                                "multiple context.Context arguments require an explicit supported selection strategy",
                                ruleId, symbol.id))
  {
  }

  lemma NameDiagnosticsAre(defaults: Defaults, rule: Rule, symbol: Symbol, d: Diagnostic)
    ensures d in NameDiagnostics(defaults, rule, symbol) <==>
            SpanName(defaults, rule.span, symbol) == "" &&
            d == Diagnostic(ErrorSeverity, "OTP1004", "span template must produce a nonempty valid name", rule.id,
                            symbol.id)
  {
    hide SpanName;
  }

  /** What is wrong with a proposal is its context, or its span name. */
  lemma ProposalDiagnosticsAre(defaults: Defaults, rule: Rule, symbol: Symbol, d: Diagnostic)
    ensures d in Propose(defaults, rule, symbol).diagnostics <==>
            || d in TargetContext(defaults.contextMode, rule.id, symbol).1
            || d in NameDiagnostics(defaults, rule, symbol)
  {
    hide SpanName, SortBy, AttributePlans, TargetContext, NameDiagnostics;
  }

  /** Resolution that stops early has no plan and no explanations, and says why. */
  lemma StoppedResolution(matcher: SegmentMatcher, policy: Policy, validation: seq<Diagnostic>, code: Option<CodeModel>)
    requires HasErrors(validation) || code.None? || !Proceeds(matcher, policy, validation, code.value)
    ensures var r := ResolveSpec(matcher, policy, validation, code);
            && r.plan == Plan([], []) && r.explanations == [] && HasErrors(r.diagnostics)
            && (HasErrors(validation) ==> r.diagnostics == validation)
            && (!HasErrors(validation) && code.None? ==>
                  r.diagnostics ==
                  validation + [Diagnostic(ErrorSeverity, "OTP1005", "code model is required", "", "")])
  {
    hide CheckSelectors, SortBy;
    if code.None? {
      var missing := Diagnostic(ErrorSeverity, "OTP1005", "code model is required", "", "");
      assert missing in validation + [missing];
    }
  }

  /** Diagnostics come by symbol, then rule, then code, then message. */
  lemma DiagnosticsInOrder(diagnostics: seq<Diagnostic>, i: nat, j: nat)
    requires i < j < |SortDiagnostics(diagnostics)|
    ensures var a, b := SortDiagnostics(diagnostics)[i], SortDiagnostics(diagnostics)[j];
            || Less(a.symbol, b.symbol)
            || (a.symbol == b.symbol &&
                (|| Less(a.ruleId, b.ruleId)
                 || (a.ruleId == b.ruleId &&
                     (|| Less(a.code, b.code)
                      || (a.code == b.code && AtMost(a.message, b.message))))))
  {
    hide SortDiagnostics, Less;
    SortedDiagnostics(diagnostics);
    var a, b := SortDiagnostics(diagnostics)[i], SortDiagnostics(diagnostics)[j];
    assert !DiagnosticLess(b, a);
    LessIsTotal(a.symbol, b.symbol);
    LessIsTotal(a.ruleId, b.ruleId);
    LessIsTotal(a.code, b.code);
    LessIsTotal(a.message, b.message);
  }

  // -------------------------------------------------------------------- what resolution goes by

  /** No pattern of the selector is malformed and every symbol it lists exists. */
  ghost predicate IsUsable(matcher: SegmentMatcher, code: CodeModel, selector: Match)
  {
    && !SelectorMeaning.HasMalformed(matcher, selector)
    && forall id :: id in selector.symbols ==> exists symbol :: symbol in code.symbols && symbol.id == id
  }

  lemma AcceptedExactly(matcher: SegmentMatcher, code: CodeModel, defaults: Defaults, selector: Match)
    ensures Accepted(ContextOf(matcher, code, defaults), selector) <==> IsUsable(matcher, code, selector)
  {
    hide MatchesSpec, SelectorMeaning.HasMalformed, SelectorMeaning.Selects;
    SelectorMeaning.SelectorIsMeant(matcher, code.interfaceMethods, ZERO_SYMBOL, selector);
  }

  /** Resolution reaches the symbols exactly if validation found no error and every selector is usable. */
  lemma ProceedsExactly(matcher: SegmentMatcher, policy: Policy, validation: seq<Diagnostic>, code: CodeModel)
    requires UniqueIdentities(policy)
    ensures Proceeds(matcher, policy, validation, code) <==>
            && (forall d :: d in validation ==> d.severity == WarningSeverity)
            && (forall rule :: rule in policy.rules ==>
                  && IsUsable(matcher, code, rule.selector)
                  && (rule.exclude.Some? ==> IsUsable(matcher, code, rule.exclude.value)))
            && (forall e :: e in policy.exclusions ==> IsUsable(matcher, code, e.selector))
  {
    hide IsUsable, Accepted, CheckSelectors, SortBy;
    ProceedsMeaning(matcher, policy, validation, code);
    forall selector
      ensures Accepted(ContextOf(matcher, code, policy.defaults), selector) <==> IsUsable(matcher, code, selector)
    {
      AcceptedExactly(matcher, code, policy.defaults, selector);
    }
  }

  /** A selector hits a symbol of the code model exactly if it is well-formed and selects it. */
  lemma HitExactly(matcher: SegmentMatcher, code: CodeModel, defaults: Defaults, symbol: Symbol, selector: Match)
    ensures Hit(ContextOf(matcher, code, defaults), symbol, selector) <==>
            && !SelectorMeaning.HasMalformed(matcher, selector)
            && SelectorMeaning.Selects(matcher, code.interfaceMethods, symbol, selector)
  {
    hide MatchesSpec, SelectorMeaning.HasMalformed, SelectorMeaning.Selects;
    SelectorMeaning.SelectorIsMeant(matcher, code.interfaceMethods, symbol, selector);
  }
}
