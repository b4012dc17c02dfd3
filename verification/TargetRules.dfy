module TargetRules {
  // What every resolved target says about its rule and its symbol (internal/resolve/resolve.go).

  import opened Globs
  import opened Orders
  import opened Policies
  import opened Resolution
  import opened ResolutionProperties
  import opened Strings
  import Templates

  // ------------------------------------------------------------------------ the specification

  /** Errors are recorded as the rule says if it does, as the defaults say otherwise. */
  ghost predicate RecordsErrors(defaults: Defaults, rule: Rule, symbol: Symbol, errors: ErrorStrategy)
  {
    var recorded :=
      rule.recordErrors == Some(true) || (rule.recordErrors.None? && defaults.recordErrors);
    errors.record == recorded && errors.indexes == if recorded then symbol.errorIndexes else []
  }

  /** The only context argument, or a new root where the policy allows it; there is no other valid choice. */
  ghost predicate TakesContext(defaults: Defaults, symbol: Symbol, context: ContextStrategy)
  {
    || (|symbol.contextIndexes| == 1 && context.strategy == "argument" && symbol.contextIndexes == [context.index])
    || (|symbol.contextIndexes| == 0 && defaults.contextMode.RootMode? && context == ContextStrategy("root", 0))
  }

  /** The template of the rule, otherwise of the policy, otherwise the one for the kind of symbol. */
  function TemplateOf(defaults: Defaults, rule: Rule, symbol: Symbol): string
  {
    match rule.span
    case Some(SpanConfig(own, _)) => if own != "" then own else DefaultTemplate(defaults, symbol)
    case None => DefaultTemplate(defaults, symbol)
  }

  function DefaultTemplate(defaults: Defaults, symbol: Symbol): string
  {
    if defaults.spanName != "" then defaults.spanName
    else match symbol.kind
      case MethodKind => "{{package}}.{{receiver}}.{{method}}"
      case _ => "{{package}}.{{function}}"
  }

  /** What each variable stands for. */
  function ValueFor(symbol: Symbol, variable: string): string
  {
    if variable == "symbol" then symbol.id
    else if variable == "package" then symbol.packageName
    else if variable == "import_path" then symbol.importPath
    else if variable == "receiver" then (match symbol.receiver case Some(typ) => typ case None => "")
    else if variable == "method" && symbol.kind == MethodKind then symbol.name
    else if variable == "function" && symbol.kind != MethodKind then symbol.name
    else ""
  }

  function Spelled(symbol: Symbol, reading: Templates.Template): string
  {
    match reading
    case End(text) => text
    case More(text, variable, tail) => text + ValueFor(symbol, variable) + Spelled(symbol, tail)
  }

  ghost predicate IsNamed(defaults: Defaults, rule: Rule, symbol: Symbol, name: string)
  {
    && name != ""
    && exists reading ::
         Templates.IsReading(TemplateOf(defaults, rule, symbol), reading) && name == Spelled(symbol, reading)
  }

  ghost predicate CarriesAttribute(attribute: AttributeRule, plan: AttributePlan)
  {
    && plan.key == attribute.key && plan.source == attribute.source && plan.stringer == attribute.stringer
    && match attribute.safety
       case Some(safety) => plan.classification == safety.classification && plan.allow == safety.allow
       case None => plan.classification == "" && !plan.allow
  }

  /** Each attribute of the rule is planned, nothing else is, and the plans are in the order of their keys. */
  ghost predicate CarriesAttributes(rule: Rule, plans: seq<AttributePlan>)
  {
    && |plans| == |rule.attributes| && SortedBy(plans, PlanKey)
    && (forall a :: a in rule.attributes ==> exists plan :: plan in plans && CarriesAttribute(a, plan))
    && (forall plan :: plan in plans ==> exists a :: a in rule.attributes && CarriesAttribute(a, plan))
  }

  ghost predicate IsTargetOf(defaults: Defaults, rule: Rule, symbol: Symbol, target: Target)
  {
    && target.symbolId == symbol.id && target.ruleId == rule.id && target.signature == symbol.signature
    && RecordsErrors(defaults, rule, symbol, target.errors)
    && TakesContext(defaults, symbol, target.context)
    && IsNamed(defaults, rule, symbol, target.spanName)
    && CarriesAttributes(rule, target.attributes)
  }

  // ------------------------------------------------------------------------------ span names

  lemma {:induction false} SpelledIsSubstituted(symbol: Symbol, reading: Templates.Template)
    requires ReadsSupported(reading)
    ensures Templates.Substitute(reading, SpanVariables(symbol)) == Spelled(symbol, reading)
  {
    if reading.More? {
      SpelledIsSubstituted(symbol, reading.tail);
    }
  }

  predicate ReadsSupported(reading: Templates.Template)
  {
    reading.More? ==> Templates.SupportedVariable(reading.name) && ReadsSupported(reading.tail)
  }

  lemma {:induction false} ReadingIsSupported(template: string, reading: Templates.Template)
    requires Templates.IsReading(template, reading)
    ensures ReadsSupported(reading)
    decreases reading
  {
    hide Templates.BeginsWith, Templates.SupportedVariable;
    if reading.More? {
      var raw, rest :|
        Templates.BeginsWith(template, reading.text, raw, rest) && Templates.IsReading(rest, reading.tail);
      ReadingIsSupported(rest, reading.tail);
    }
  }

  /** A span name that is not empty is spelled by the reading of its template. */
  lemma NameIsSpelled(defaults: Defaults, rule: Rule, symbol: Symbol)
    requires SpanName(defaults, rule.span, symbol) != ""
    ensures IsNamed(defaults, rule, symbol, SpanName(defaults, rule.span, symbol))
  {
    hide Templates.Read, Templates.Substitute, SpanVariables, Templates.IsReading;
    var template := TemplateOf(defaults, rule, symbol);
    assert template == SpanTemplate(defaults.spanName, rule.span, symbol);
    var reading := Templates.Read(template).template;
    Templates.ReadFindsTheReading(template, reading);
    ReadingIsSupported(template, reading);
    SpelledIsSubstituted(symbol, reading);
  }

  // ------------------------------------------------------------------------------ attributes

  lemma {:induction false} PlannedAt(attributes: seq<AttributeRule>)
    ensures |AttributePlans(attributes)| == |attributes|
    ensures forall i :: 0 <= i < |attributes| ==> CarriesAttribute(attributes[i], AttributePlans(attributes)[i])
  {
    if |attributes| == 0 {
    } else {
      PlannedAt(attributes[..|attributes| - 1]);
    }
  }

  lemma AttributesAreCarried(rule: Rule)
    ensures CarriesAttributes(rule, SortBy(AttributePlans(rule.attributes), PlanKey))
  {
    hide AttributePlans, SortBy, SortedBy, CarriesAttribute;
    var plans := AttributePlans(rule.attributes);
    PlannedAt(rule.attributes);
    SortBySorts(plans, PlanKey);
    SameElements(SortBy(plans, PlanKey), plans);
    forall a | a in rule.attributes
      ensures exists plan :: plan in plans && CarriesAttribute(a, plan)
    {
      var i :| 0 <= i < |rule.attributes| && rule.attributes[i] == a;
      assert plans[i] in plans;
    }
    forall plan | plan in plans
      ensures exists a :: a in rule.attributes && CarriesAttribute(a, plan)
    {
      var i :| 0 <= i < |plans| && plans[i] == plan;
      assert rule.attributes[i] in rule.attributes;
    }
  }

  // ------------------------------------------------------------------------------ main results

  lemma NoErrorsOfParts(a: seq<Diagnostic>, b: seq<Diagnostic>)
    requires !HasErrors(a + b)
    ensures !HasErrors(a) && !HasErrors(b)
  {
    assert forall d :: d in a || d in b ==> d in a + b;
  }

  lemma OneError(d: Diagnostic)
    requires d.severity == ErrorSeverity
    ensures HasErrors([d])
  {
    assert d in [d];
  }

  lemma ContextIsTaken(defaults: Defaults, rule: Rule, symbol: Symbol)
    ensures var (context, diagnostics) := TargetContext(defaults.contextMode, rule.id, symbol);
            HasErrors(diagnostics) || TakesContext(defaults, symbol, context)
  {
    hide HasErrors;
    var diagnostics := TargetContext(defaults.contextMode, rule.id, symbol).1;
    if |symbol.contextIndexes| > 1 || (|symbol.contextIndexes| == 0 && !defaults.contextMode.RootMode?) {
      OneError(diagnostics[0]);
    } else if |symbol.contextIndexes| == 1 {
      assert symbol.contextIndexes == [symbol.contextIndexes[0]];
    }
  }

  lemma NameIsPresent(defaults: Defaults, rule: Rule, symbol: Symbol)
    ensures HasErrors(NameDiagnostics(defaults, rule, symbol)) || SpanName(defaults, rule.span, symbol) != ""
  {
    hide HasErrors, SpanName;
    if SpanName(defaults, rule.span, symbol) == "" {
      OneError(NameDiagnostics(defaults, rule, symbol)[0]);
    }
  }

  /** A valid proposal says what it should. */
  lemma ProposalIsTarget(defaults: Defaults, rule: Rule, symbol: Symbol)
    requires ValidProposal(defaults, symbol, rule)
    ensures IsTargetOf(defaults, rule, symbol, Propose(defaults, rule, symbol).target)
  {
    hide SortBy, CarriesAttributes, SpanName, IsNamed, TargetContext, NameDiagnostics, TakesContext, HasErrors;
    NoErrorsOfParts(TargetContext(defaults.contextMode, rule.id, symbol).1, NameDiagnostics(defaults, rule, symbol));
    ContextIsTaken(defaults, rule, symbol);
    NameIsPresent(defaults, rule, symbol);
    NameIsSpelled(defaults, rule, symbol);
    AttributesAreCarried(rule);
  }

  /**
   Every target of the result says what its rule and its symbol demand: errors, context, span name,
   attributes and identities.
   */
  lemma TargetMeaning(matcher: SegmentMatcher, policy: Policy, validation: seq<Diagnostic>, code: CodeModel,
                      target: Target, rule: Rule, symbol: Symbol)
    requires UniqueIdentities(policy) && DistinctKeys(code.symbols, SymbolIdOf)
    requires Proceeds(matcher, policy, validation, code)
    requires target in ResolveSpec(matcher, policy, validation, Some(code)).plan.targets
    requires rule in policy.rules && rule.id == target.ruleId
    requires symbol in code.symbols && symbol.id == target.symbolId
    ensures IsTargetOf(policy.defaults, rule, symbol, target)
  {
    hide ResolveSpec, Proceeds, IsTargetOf, Hit, Propose;
    PlanMeaning(matcher, policy, validation, code);
    var ctx := ContextOf(matcher, code, policy.defaults);
    var selected :| selected in code.symbols && IsSelected(ctx, policy.rules, policy.exclusions, selected, target);
    var least :|
      && least in policy.rules && IsCandidate(ctx, selected, least)
      && target == Propose(ctx.defaults, least, selected).target
      && ValidProposal(ctx.defaults, selected, least);
    ProposalIsTarget(ctx.defaults, least, selected);
    Identities(ctx.defaults, least, selected, target);
    SameIdSameRule(policy.rules, least, rule);
    SameKeySameElement(code.symbols, SymbolIdOf, selected, symbol);
  }

  lemma Identities(defaults: Defaults, rule: Rule, symbol: Symbol, target: Target)
    requires IsTargetOf(defaults, rule, symbol, target)
    ensures target.ruleId == rule.id && target.symbolId == symbol.id
  {
  }

  // -------------------------------------------------------------------------- built-in names

  /** Without a template a function is named by package and name, a method also by its receiver. */
  lemma BuiltInName(defaults: Defaults, rule: Rule, symbol: Symbol)
    requires defaults.spanName == "" && (rule.span.Some? ==> rule.span.value.name == "")
    ensures SpanName(defaults, rule.span, symbol) ==
            if symbol.kind == MethodKind
            then symbol.packageName + "." + ValueFor(symbol, "receiver") + "." + symbol.name
            else symbol.packageName + "." + symbol.name
  {
    hide Templates.RenderSpec;
    if symbol.kind == MethodKind {
      ThreeVariables(symbol);
    } else {
      TwoVariables(symbol);
    }
  }

  lemma PlainNames()
    ensures TrimSpace("package") == "package" && TrimSpace("receiver") == "receiver"
    ensures TrimSpace("method") == "method" && TrimSpace("function") == "function"
  {
  }

  /** One variable between what is before it and the rest. */
  lemma OneVariable(text: string, variable: string, rest: string, behind: string, vars: map<string, string>)
    requires forall i :: 0 <= i < |text| ==> text[i] != '{'
    requires variable in ["package", "receiver", "method", "function"] && variable in vars
    requires Templates.RenderSpec(rest, vars) == Templates.Rendered(behind)
    ensures Templates.RenderSpec(text + "{{" + variable + "}}" + rest, vars) ==
            Templates.Rendered(text + vars[variable] + behind)
  {
    hide Templates.RenderSpec, TrimSpace;
    PlainNames();
    Templates.VariableIsReplaced(text, variable, rest, vars);
  }

  lemma KnownVariables(symbol: Symbol)
    ensures var vars := SpanVariables(symbol);
            && "package" in vars && vars["package"] == symbol.packageName
            && "receiver" in vars && vars["receiver"] == ValueFor(symbol, "receiver")
            && "method" in vars && vars["method"] == ValueFor(symbol, "method")
            && "function" in vars && vars["function"] == ValueFor(symbol, "function")
  {
  }

  /** The built-in templates, taken apart. */
  lemma FunctionParts()
    ensures "{{package}}.{{function}}" == "" + "{{" + "package" + "}}" + (".{{function}}")
    ensures ".{{function}}" == "." + "{{" + "function" + "}}" + ""
  {
  }

  lemma MethodFirst()
    ensures "{{package}}.{{receiver}}.{{method}}" == "" + "{{" + "package" + "}}" + ".{{receiver}}.{{method}}"
  {
  }

  lemma MethodRest()
    ensures ".{{receiver}}.{{method}}" == "." + "{{" + "receiver" + "}}" + ".{{method}}"
    ensures ".{{method}}" == "." + "{{" + "method" + "}}" + ""
  {
  }

  lemma TwoVariables(symbol: Symbol)
    requires symbol.kind != MethodKind
    ensures Templates.RenderSpec("{{package}}.{{function}}", SpanVariables(symbol)) ==
            Templates.Rendered(symbol.packageName + "." + symbol.name)
  {
    hide Templates.RenderSpec, SpanVariables;
    var vars := SpanVariables(symbol);
    KnownVariables(symbol);
    FunctionParts();
    Templates.LiteralIsKept("", vars);
    OneVariable(".", "function", "", "", vars);
    OneVariable("", "package", ".{{function}}", "." + symbol.name + "", vars);
    JoinTwo(symbol.packageName, symbol.name);
  }

  lemma JoinTwo(a: string, b: string)
    ensures "" + a + ("." + b + "") == a + "." + b
  {
  }

  lemma ThreeVariables(symbol: Symbol)
    requires symbol.kind == MethodKind
    ensures Templates.RenderSpec("{{package}}.{{receiver}}.{{method}}", SpanVariables(symbol)) ==
            Templates.Rendered(symbol.packageName + "." + ValueFor(symbol, "receiver") + "." + symbol.name)
  {
    hide Templates.RenderSpec, SpanVariables;
    var vars, receiver := SpanVariables(symbol), ValueFor(symbol, "receiver");
    KnownVariables(symbol);
    MethodFirst();
    MethodRest();
    Templates.LiteralIsKept("", vars);
    OneVariable(".", "method", "", "", vars);
    OneVariable(".", "receiver", ".{{method}}", "." + symbol.name + "", vars);
    OneVariable("", "package", ".{{receiver}}.{{method}}", "." + receiver + ("." + symbol.name + ""), vars);
    JoinThree(symbol.packageName, receiver, symbol.name);
  }

  lemma JoinThree(a: string, b: string, c: string)
    ensures "" + a + ("." + b + ("." + c + "")) == a + "." + b + "." + c
  {
  }
}
