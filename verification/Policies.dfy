/** The parts of the policy, the code model and the resolved plan that resolution reads and writes. */
module Policies {

  datatype Option<T> = None | Some(value: T)

  // ------------------------------------------------------------------------------ code model

  datatype SymbolKind = FunctionKind | MethodKind | OtherKind

  datatype Symbol = Symbol(
    id: string, kind: SymbolKind, importPath: string, packageName: string, name: string,
    receiver: Option<string>, file: string, exported: bool, contextIndexes: seq<int>,
    errorIndexes: seq<int>, ownership: string, signature: string)

  /** What `var symbol model.Symbol` holds. */
  const ZERO_SYMBOL := Symbol("", OtherKind, "", "", "", None, "", false, [], [], "", "")

  datatype InterfaceMethod = InterfaceMethod(interfaceId: string, symbolId: string)

  datatype CodeModel = CodeModel(symbols: seq<Symbol>, interfaceMethods: seq<InterfaceMethod>)

  // ---------------------------------------------------------------------------------- policy

  const OWNERSHIP_ANY := "any"

  datatype Match = Match(
    packages: seq<string>, files: seq<string>, symbols: seq<string>, functions: seq<string>,
    receivers: seq<string>, methods: seq<string>, implements: seq<string>, exported: Option<bool>,
    hasContext: Option<bool>, returnsError: Option<bool>, ownership: string)

  datatype AttributeSource = AttributeSource(
    argument: string, result: string, constant: Option<string>, symbol: string, errorType: string)

  datatype Safety = Safety(classification: string, allow: bool)

  datatype AttributeRule = AttributeRule(key: string, source: AttributeSource, stringer: bool, safety: Option<Safety>)

  datatype SpanConfig = SpanConfig(name: string, kind: string)

  datatype Rule = Rule(
    id: string, description: string, selector: Match, exclude: Option<Match>, span: Option<SpanConfig>,
    recordErrors: Option<bool>, attributes: seq<AttributeRule>)

  datatype Exclusion = Exclusion(id: string, selector: Match)

  datatype ContextMode = RootMode | OtherMode(text: string)

  datatype Defaults = Defaults(spanName: string, contextMode: ContextMode, recordErrors: bool)

  /** `settings` stands for the fields that neither resolution nor canonicalization touches. */
  datatype Policy = Policy(
    settings: string, packages: seq<string>, buildTags: seq<string>, defaults: Defaults,
    denyPatterns: seq<string>, rules: seq<Rule>, exclusions: seq<Exclusion>)

  // ------------------------------------------------------------------------------------ plan

  datatype ContextStrategy = ContextStrategy(strategy: string, index: int)

  datatype ErrorStrategy = ErrorStrategy(record: bool, indexes: seq<int>)

  datatype AttributePlan = AttributePlan(
    key: string, source: AttributeSource, stringer: bool, classification: string, allow: bool)

  datatype Target = Target(
    symbolId: string, spanName: string, context: ContextStrategy, errors: ErrorStrategy,
    attributes: seq<AttributePlan>, ruleId: string, signature: string)

  datatype SkipReason = Excluded | MissingContext

  datatype SkippedTarget = SkippedTarget(symbolId: string, ruleId: string, reason: SkipReason)

  datatype Severity = ErrorSeverity | WarningSeverity

  datatype Diagnostic = Diagnostic(severity: Severity, code: string, message: string, ruleId: string, symbol: string)

  datatype Decision = Decision(ruleId: string, stage: string, matched: bool)

  datatype Explanation = Explanation(symbolId: string, decisions: seq<Decision>, selected: bool)

  const CODE_INVALID_SELECTOR := "OTP1001"
  const CODE_UNRESOLVED_SYMBOL := "OTP1002"
  const CODE_CONFLICTING_RULES := "OTP1003"
  const CODE_UNKNOWN_TEMPLATE_VAR := "OTP1004"
  const CODE_INVALID_POLICY := "OTP1005"
  const CODE_RULE_FULLY_EXCLUDED := "OTP1006"
  const CODE_MISSING_CONTEXT := "OTP3001"
  const CODE_MULTIPLE_CONTEXTS := "OTP3002"

  predicate HasErrors(diagnostics: seq<Diagnostic>)
  {
    exists d :: d in diagnostics && d.severity == ErrorSeverity
  }

  function ResolutionDiagnostic(code: string, ruleId: string, symbol: string, message: string): Diagnostic
  {
    Diagnostic(ErrorSeverity, code, message, ruleId, symbol)
  }
}
