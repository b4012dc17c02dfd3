/** Creating the lockfile of a resolved plan (internal/lockfile/lockfile.go, internal/cli/lock.go). */
module LockCreation {
  import opened CanonicalPolicies
  import opened Globs
  import opened LockCommands
  import opened Lockfiles
  import opened Orders
  import opened Policies
  import Resolution
  import ResolutionProperties

  // ---------------------------------------------------------------------------------- inputs

  /** The backend that a policy pins, and the encoding of its canonical form, if it has one. */
  datatype PolicyInput = PolicyInput(backendName: string, backendVersion: string, text: Option<string>)

  /**
   What the analysis says of a symbol: where it is, the kind of the value that an attribute reads if
   it can be read, and the value of a metadata field if there is such a field.
   */
  datatype Facts = Facts(
    goVersion: string, location: Symbol -> Location, kind: (Symbol, AttributePlan) -> Option<string>,
    metadata: (Symbol, string) -> Option<string>)

  datatype Input = Input(
    policy: Option<PolicyInput>, code: Option<CodeModel>, plan: seq<Target>, backend: LockBackend, graph: Digest,
    artifacts: seq<ArtifactFile>)

  function PlannedSymbol(target: Target): string { target.symbolId }

  /** `code.Symbol`. */
  function FindSymbol(symbols: seq<Symbol>, id: string): Option<Symbol>
  {
    if |symbols| == 0 then None
    else if symbols[0].id == id then Some(symbols[0])
    else FindSymbol(symbols[1..], id)
  }

  // --------------------------------------------------------------------------- specification

  function LockedAttribute(facts: Facts, symbol: Symbol, plan: AttributePlan): Option<LockAttribute>
  {
    var kind := facts.kind(symbol, plan);
    var value := if plan.source.symbol == "" then None else facts.metadata(symbol, plan.source.symbol);
    if kind.None? || (plan.source.symbol != "" && value.None?) then None
    else Some(LockAttribute(plan.key, plan.source, kind.value, plan.stringer, plan.classification, plan.allow, value))
  }

  predicate AreLockable(facts: Facts, symbol: Symbol, plans: seq<AttributePlan>)
  {
    forall plan :: plan in plans ==> LockedAttribute(facts, symbol, plan).Some?
  }

  function LockedAttributes(facts: Facts, symbol: Symbol, plans: seq<AttributePlan>): seq<LockAttribute>
    requires AreLockable(facts, symbol, plans)
  {
    seq(|plans|, i requires 0 <= i < |plans| => LockedAttribute(facts, symbol, plans[i]).value)
  }

  /** The symbol is the analyzed one, its file is relative, and its attributes can be read. */
  predicate IsLockable(checks: Checks, facts: Facts, symbols: seq<Symbol>, target: Target)
  {
    var symbol := FindSymbol(symbols, target.symbolId);
    && symbol.Some? && symbol.value.signature == target.signature
    && checks.relative(facts.location(symbol.value).file) && AreLockable(facts, symbol.value, target.attributes)
  }

  /** The target as it is pinned, with its attributes in the order of the plan. */
  function LockedTarget(checks: Checks, facts: Facts, symbols: seq<Symbol>, target: Target): LockTarget
    requires IsLockable(checks, facts, symbols, target)
  {
    var symbol := FindSymbol(symbols, target.symbolId).value;
    LockTarget(
      target.symbolId, target.signature, Sha256(target.signature), target.ruleId, target.spanName,
      LockContext(target.context.strategy, target.context.index),
      LockErrors(target.errors.record, target.errors.indexes),
      LockedAttributes(facts, symbol, target.attributes), facts.location(symbol))
  }

  /** `checkCreationInputs`. */
  predicate AreCreationInputs(checks: Checks, facts: Facts, input: Input)
  {
    && input.policy.Some? && input.code.Some? && facts.goVersion != ""
    && input.backend.name == input.policy.value.backendName
    && input.backend.version == input.policy.value.backendVersion
    && checks.pinned(input.backend.version) && input.graph.Sha256?
    && input.policy.value.text.Some?
  }

  predicate AllLockable(checks: Checks, facts: Facts, input: Input)
  {
    AreCreationInputs(checks, facts, input) &&
    forall target :: target in input.plan ==> IsLockable(checks, facts, input.code.value.symbols, target)
  }

  /** The lockfile with everything in the order in which it was given. */
  function Drafted(checks: Checks, facts: Facts, input: Input): Lockfile
    requires AllLockable(checks, facts, input)
  {
    var symbols := input.code.value.symbols;
    Lockfile(
      LOCK_API_VERSION, Sha256(input.policy.value.text.value), facts.goVersion, input.graph, input.backend,
      seq(|input.plan|, i requires 0 <= i < |input.plan| => LockedTarget(checks, facts, symbols, input.plan[i])),
      input.artifacts)
  }

  ghost predicate IsCreatable(checks: Checks, facts: Facts, input: Input)
  {
    && AllLockable(checks, facts, input) && DistinctKeys(input.plan, PlannedSymbol)
    && ValidLock(checks, Drafted(checks, facts, input))
  }

  ghost function CreatedLock(checks: Checks, facts: Facts, input: Input): Option<Lockfile>
  {
    if IsCreatable(checks, facts, input) then Some(Canonical(Drafted(checks, facts, input))) else None
  }

  // --------------------------------------------------------------------------------- the code

  /** `createAttribute`. */
  method CreateAttribute(facts: Facts, symbol: Symbol, plan: AttributePlan) returns (r: Option<LockAttribute>)
    ensures r == LockedAttribute(facts, symbol, plan)
  {
    var kind := facts.kind(symbol, plan);
    if kind == None {
      return None;
    }
    var locked :=
      LockAttribute(plan.key, plan.source, kind.value, plan.stringer, plan.classification, plan.allow, None);
    if plan.source.symbol != "" {
      var value := facts.metadata(symbol, plan.source.symbol);
      if value == None {
        return None;
      }
      locked := locked.(symbolValue := value);
    }
    return Some(locked);
  }

  /** `createTarget`, which sorts the attributes by key. */
  method CreateTarget(checks: Checks, facts: Facts, code: CodeModel, target: Target) returns (r: Option<LockTarget>)
    ensures r.Some? <==> IsLockable(checks, facts, code.symbols, target)
    ensures r.Some? ==> IsTargetOrder(r.value, LockedTarget(checks, facts, code.symbols, target))
  {
    hide LockedAttribute, SortedBy;
    var symbol := FindSymbol(code.symbols, target.symbolId);
    if symbol == None || symbol.value.signature != target.signature {
      return None;
    }
    var location := facts.location(symbol.value);
    if !checks.relative(location.file) {
      return None;
    }
    var attributes: seq<LockAttribute> := [];
    for k := 0 to |target.attributes|
      invariant AreLockable(facts, symbol.value, target.attributes[..k])
      invariant attributes == LockedAttributes(facts, symbol.value, target.attributes[..k])
    {
      var locked := CreateAttribute(facts, symbol.value, target.attributes[k]);
      if locked == None {
        assert target.attributes[k] in target.attributes;
        return None;
      }
      attributes := attributes + [locked.value];
    }
    assert target.attributes[..|target.attributes|] == target.attributes;
    attributes := Sort(attributes, LockKey);
    return Some(LockTarget(
      target.symbolId, target.signature, Sha256(target.signature), target.ruleId, target.spanName,
      LockContext(target.context.strategy, target.context.index),
      LockErrors(target.errors.record, target.errors.indexes), attributes, location));
  }

  /** `Create`: the canonical lockfile of the plan, or an error. */
  method Create(checks: Checks, facts: Facts, input: Input) returns (r: Option<Lockfile>)
    ensures r == CreatedLock(checks, facts, input)
  {
    hide IsLockable, LockedTarget, IsTargetOrder, DistinctKeys, ValidLock, IsSortOf, Canonical;
    if !AreCreationInputs(checks, facts, input) {
      return None;
    }
    var code, plan := input.code.value, input.plan;
    var targets: seq<LockTarget> := [];
    var seen: set<string> := {};
    NoKeys(plan[..0], PlannedSymbol);
    for k := 0 to |plan|
      invariant DistinctKeys(plan[..k], PlannedSymbol)
      invariant forall x :: x in seen <==> exists i :: 0 <= i < k && PlannedSymbol(plan[i]) == x
      invariant |targets| == k
      invariant forall i :: 0 <= i < k ==> IsLockable(checks, facts, code.symbols, plan[i])
      invariant forall i :: 0 <= i < k ==> IsTargetOrder(targets[i], LockedTarget(checks, facts, code.symbols, plan[i]))
    {
      SeenDecides(plan, PlannedSymbol, k, seen);
      if plan[k].symbolId in seen {
        return None;
      }
      seen := seen + {plan[k].symbolId};
      var locked := CreateTarget(checks, facts, code, plan[k]);
      if locked == None {
        assert plan[k] in plan;
        return None;
      }
      targets := targets + [locked.value];
    }
    assert plan[..|plan|] == plan;
    ghost var drafted := Drafted(checks, facts, input);
    assert AreTargetOrders(targets, drafted.targets);
    var sorted := Sort(targets, TargetSymbol);
    var artifacts := Sort(input.artifacts, ArtifactPath);
    var lock := Lockfile(LOCK_API_VERSION, Sha256(input.policy.value.text.value), facts.goVersion, input.graph,
                         input.backend, sorted, artifacts);
    assert IsOrderOf(lock, drafted);
    OrderKeepsValidity(checks, lock, drafted);
    var ok := CheckLock(checks, lock);
    if !ok {
      return None;
    }
    OrderOfValid(checks, lock, drafted);
    return Some(lock);
  }

  lemma OrderOfValid(checks: Checks, r: Lockfile, lock: Lockfile)
    requires ValidLock(checks, lock) && IsOrderOf(r, lock)
    ensures r == Canonical(lock)
  {
    hide Canonical, IsOrderOf;
    OrderIsCanonical(r, lock);
  }

  /** The current lockfile of `prepareResolutionLock`, or the exit code with which it fails. */
  method PrepareCurrent(checks: Checks, facts: Facts, policy: PolicyInput, code: CodeModel, plan: seq<Target>,
                        graph: Option<Digest>, identity: Option<LockBackend>) returns (r: Prepared)
    ensures ValidPrepared(checks, r)
    ensures r ==
            if graph.None? then Failed(EXIT_ANALYSIS)
            else if identity.None? then Failed(EXIT_BACKEND)
            else
              var input := Input(Some(policy), Some(code), plan, identity.value, graph.value, []);
              var lock := CreatedLock(checks, facts, input);
              if lock.Some? then Prepared.Created(lock.value) else Failed(EXIT_VALIDATION)
  {
    hide IsCreatable, Canonical, ValidLock;
    if graph == None {
      return Failed(EXIT_ANALYSIS);
    }
    if identity == None {
      return Failed(EXIT_BACKEND);
    }
    var input := Input(Some(policy), Some(code), plan, identity.value, graph.value, []);
    var current := Create(checks, facts, input);
    if current == None {
      return Failed(EXIT_VALIDATION);
    }
    CreatedIsValid(checks, facts, input);
    assert |current.value.artifacts| == 0;
    return Prepared.Created(current.value);
  }

  // ------------------------------------------------------------------------------ main results

  /** What is created is valid, in canonical order, and has the given artifacts. */
  lemma CreatedIsValid(checks: Checks, facts: Facts, input: Input)
    requires CreatedLock(checks, facts, input).Some?
    ensures var lock := CreatedLock(checks, facts, input).value;
            && ValidLock(checks, lock) && Canonical(lock) == lock
            && multiset(lock.artifacts) == multiset(input.artifacts) && |lock.artifacts| == |input.artifacts|
  {
    hide SortBy, SortedBy;
    var drafted := Drafted(checks, facts, input);
    CanonicalIsValid(checks, drafted);
    CanonicalIsStable(drafted);
    SortBySorts(input.artifacts, ArtifactPath);
    SameElements(SortBy(input.artifacts, ArtifactPath), input.artifacts);
  }

  /** A lockfile is created exactly if the analysis and the backend are complete and every target can be pinned. */
  lemma CreatedExactly(checks: Checks, facts: Facts, input: Input)
    ensures CreatedLock(checks, facts, input).Some? <==>
            && input.policy.Some? && input.policy.value.text.Some? && input.code.Some? && facts.goVersion != ""
            && input.backend.name == input.policy.value.backendName
            && input.backend.version == input.policy.value.backendVersion && checks.pinned(input.backend.version)
            && input.graph.Sha256?
            && (forall i, j :: 0 <= i < j < |input.plan| ==> input.plan[i].symbolId != input.plan[j].symbolId)
            && (forall target :: target in input.plan ==>
                  IsLockable(checks, facts, input.code.value.symbols, target))
            && ValidLock(checks, Drafted(checks, facts, input))
  {
    hide IsLockable, Drafted, ValidLock;
    assert forall i, j :: 0 <= i < |input.plan| && 0 <= j < |input.plan| ==>
             (PlannedSymbol(input.plan[i]) == PlannedSymbol(input.plan[j]) <==>
              input.plan[i].symbolId == input.plan[j].symbolId);
  }

  /** A target can be pinned exactly if the first symbol of its ID is unchanged, in a relative file, and readable. */
  lemma LockableExactly(checks: Checks, facts: Facts, symbols: seq<Symbol>, target: Target)
    ensures IsLockable(checks, facts, symbols, target) <==>
            exists k: nat :: IsFirst(symbols, target.symbolId, k) && symbols[k].signature == target.signature &&
                        checks.relative(facts.location(symbols[k]).file) &&
                        forall plan :: plan in target.attributes ==> IsReadable(facts, symbols[k], plan)
  {
    FirstIsFound(symbols, target.symbolId);
    forall symbol, plan
      ensures LockedAttribute(facts, symbol, plan).Some? <==> IsReadable(facts, symbol, plan)
    {
    }
    hide LockedAttribute, IsReadable, IsFirst;
    var found := FindSymbol(symbols, target.symbolId);
    if found.Some? {
      var k: nat :| IsFirst(symbols, target.symbolId, k);
      assert found == Some(symbols[k]);
    }
  }

  ghost predicate IsFirst(symbols: seq<Symbol>, id: string, k: nat)
  {
    k < |symbols| && symbols[k].id == id && forall i :: 0 <= i < k ==> symbols[i].id != id
  }

  /** The attribute has a kind and, if it is symbol metadata, a value. */
  predicate IsReadable(facts: Facts, symbol: Symbol, plan: AttributePlan)
  {
    && facts.kind(symbol, plan).Some?
    && (plan.source.symbol != "" ==> facts.metadata(symbol, plan.source.symbol).Some?)
  }

  lemma {:induction false} FirstIsFound(symbols: seq<Symbol>, id: string)
    ensures FindSymbol(symbols, id).Some? <==> exists k: nat :: IsFirst(symbols, id, k)
    ensures forall k: nat :: IsFirst(symbols, id, k) ==> FindSymbol(symbols, id) == Some(symbols[k])
  {
    if |symbols| == 0 {
    } else if symbols[0].id == id {
      assert IsFirst(symbols, id, 0);
    } else {
      FirstIsFound(symbols[1..], id);
      forall k: nat
        ensures IsFirst(symbols, id, k) <==> k > 0 && IsFirst(symbols[1..], id, k - 1)
      {
      }
      if FindSymbol(symbols, id).Some? {
        var k: nat :| IsFirst(symbols[1..], id, k);
        assert IsFirst(symbols, id, k + 1);
      }
    }
  }

  /** An attribute is pinned as planned, with the kind of what it reads and the value of symbol metadata. */
  ghost predicate PinsAttribute(facts: Facts, symbol: Symbol, plan: AttributePlan, locked: LockAttribute)
  {
    && locked.key == plan.key && locked.source == plan.source && locked.stringer == plan.stringer
    && locked.classification == plan.classification && locked.allow == plan.allow
    && facts.kind(symbol, plan) == Some(locked.kind)
    && if plan.source.symbol != "" then locked.symbolValue.Some? &&
                                        facts.metadata(symbol, plan.source.symbol) == locked.symbolValue
       else locked.symbolValue.None?
  }

  /** A target is pinned field by field, at the place of its symbol. */
  ghost predicate PinsTarget(facts: Facts, symbols: seq<Symbol>, target: Target, locked: LockTarget)
  {
    && locked.symbol == target.symbolId && locked.signature == target.signature
    && locked.signatureDigest == Sha256(target.signature)
    && locked.sourceRule == target.ruleId && locked.spanName == target.spanName
    && locked.context.strategy == target.context.strategy && locked.context.index == target.context.index
    && locked.errors.record == target.errors.record && locked.errors.indexes == target.errors.indexes
    && |locked.attributes| == |target.attributes|
    && exists symbol :: symbol in symbols && symbol.id == target.symbolId && symbol.signature == target.signature
         && locked.location == facts.location(symbol)
         && (forall plan :: plan in target.attributes ==>
               exists a :: a in locked.attributes && PinsAttribute(facts, symbol, plan, a))
         && (forall a :: a in locked.attributes ==>
               exists plan :: plan in target.attributes && PinsAttribute(facts, symbol, plan, a))
  }

  lemma {:induction false} FoundIsListed(symbols: seq<Symbol>, id: string)
    ensures FindSymbol(symbols, id).Some? ==>
              FindSymbol(symbols, id).value in symbols && FindSymbol(symbols, id).value.id == id
  {
    if |symbols| == 0 {
    } else {
      FoundIsListed(symbols[1..], id);
    }
  }

  lemma AttributesArePinned(facts: Facts, symbol: Symbol, plans: seq<AttributePlan>, locked: seq<LockAttribute>)
    requires AreLockable(facts, symbol, plans) && locked == SortBy(LockedAttributes(facts, symbol, plans), LockKey)
    ensures |locked| == |plans|
    ensures forall plan :: plan in plans ==> exists a :: a in locked && PinsAttribute(facts, symbol, plan, a)
    ensures forall a :: a in locked ==> exists plan :: plan in plans && PinsAttribute(facts, symbol, plan, a)
  {
    hide SortBy, SortedBy, PinsAttribute, LockedAttributes, LockedAttribute;
    var given := LockedAttributes(facts, symbol, plans);
    SortBySorts(given, LockKey);
    SameElements(locked, given);
    AttributesPinnedAt(facts, symbol, plans);
    forall plan | plan in plans
      ensures exists a :: a in locked && PinsAttribute(facts, symbol, plan, a)
    {
      var i :| 0 <= i < |plans| && plans[i] == plan;
      assert given[i] in locked;
    }
    forall a | a in locked
      ensures exists plan :: plan in plans && PinsAttribute(facts, symbol, plan, a)
    {
      var i :| 0 <= i < |given| && given[i] == a;
      assert plans[i] in plans;
    }
  }

  lemma AttributesPinnedAt(facts: Facts, symbol: Symbol, plans: seq<AttributePlan>)
    requires AreLockable(facts, symbol, plans)
    ensures var given := LockedAttributes(facts, symbol, plans);
            && |given| == |plans|
            && forall i :: 0 <= i < |plans| ==> PinsAttribute(facts, symbol, plans[i], given[i])
  {
    forall i | 0 <= i < |plans|
      ensures PinsAttribute(facts, symbol, plans[i], LockedAttributes(facts, symbol, plans)[i])
    {
      assert plans[i] in plans;
    }
  }

  lemma TargetIsPinned(checks: Checks, facts: Facts, symbols: seq<Symbol>, target: Target)
    requires IsLockable(checks, facts, symbols, target)
    ensures PinsTarget(facts, symbols, target, CanonicalTarget(LockedTarget(checks, facts, symbols, target)))
  {
    hide SortBy, PinsAttribute, LockedAttributes;
    var symbol := FindSymbol(symbols, target.symbolId).value;
    FoundIsListed(symbols, target.symbolId);
    AttributesArePinned(facts, symbol, target.attributes,
                        SortBy(LockedAttributes(facts, symbol, target.attributes), LockKey));
  }

  /** What a created lockfile holds: the inputs, and every planned target, pinned, and no other. */
  lemma CreatedMeaning(checks: Checks, facts: Facts, input: Input)
    requires CreatedLock(checks, facts, input).Some?
    ensures var lock := CreatedLock(checks, facts, input).value;
            && lock.apiVersion == "otelplan.io/lock/v1alpha1" && lock.goVersion == facts.goVersion
            && Some(lock.policyDigest) == (match input.policy.value.text
                                           case Some(text) => Some(Sha256(text)) case None => None)
            && lock.moduleGraphDigest == input.graph && lock.backend == input.backend
            && multiset(lock.artifacts) == multiset(input.artifacts)
            && (forall target :: target in input.plan ==>
                  exists t :: t in lock.targets && PinsTarget(facts, input.code.value.symbols, target, t))
            && (forall t :: t in lock.targets ==>
                  exists target :: target in input.plan && PinsTarget(facts, input.code.value.symbols, target, t))
  {
    hide SortBy, PinsTarget, CanonicalTargets, LockedTarget, ValidLock, DistinctKeys, IsLockable;
    CreatedIsValid(checks, facts, input);
    TargetsArePinned(checks, facts, input);
  }

  lemma TargetsArePinned(checks: Checks, facts: Facts, input: Input)
    requires AllLockable(checks, facts, input)
    ensures var targets := Canonical(Drafted(checks, facts, input)).targets;
            && (forall target :: target in input.plan ==>
                  exists t :: t in targets && PinsTarget(facts, input.code.value.symbols, target, t))
            && (forall t :: t in targets ==>
                  exists target :: target in input.plan && PinsTarget(facts, input.code.value.symbols, target, t))
  {
    hide SortBy, SortedBy, PinsTarget, CanonicalTarget, LockedTarget, IsLockable;
    var forms := CanonicalTargets(Drafted(checks, facts, input).targets);
    SortBySorts(forms, TargetSymbol);
    SameElements(SortBy(forms, TargetSymbol), forms);
    forall i | 0 <= i < |input.plan|
      ensures PinsTarget(facts, input.code.value.symbols, input.plan[i], forms[i])
    {
      assert input.plan[i] in input.plan;
      TargetIsPinned(checks, facts, input.code.value.symbols, input.plan[i]);
    }
    PinnedOneByOne(facts, input.code.value.symbols, input.plan, forms);
  }

  lemma PinnedOneByOne(facts: Facts, symbols: seq<Symbol>, plan: seq<Target>, forms: seq<LockTarget>)
    requires |plan| == |forms| && forall i :: 0 <= i < |plan| ==> PinsTarget(facts, symbols, plan[i], forms[i])
    ensures forall target :: target in plan ==> exists t :: t in forms && PinsTarget(facts, symbols, target, t)
    ensures forall t :: t in forms ==> exists target :: target in plan && PinsTarget(facts, symbols, target, t)
  {
    hide PinsTarget;
    forall target | target in plan
      ensures exists t :: t in forms && PinsTarget(facts, symbols, target, t)
    {
      var i :| 0 <= i < |plan| && plan[i] == target;
      assert forms[i] in forms;
    }
    forall t | t in forms
      ensures exists target :: target in plan && PinsTarget(facts, symbols, target, t)
    {
      var i :| 0 <= i < |forms| && forms[i] == t;
      assert plan[i] in plan;
    }
  }

  /** The targets agree except for the order of their attributes. */
  ghost predicate SamePlanned(first: Target, second: Target)
  {
    && first == second.(attributes := first.attributes)
    && forall plan :: plan in first.attributes <==> plan in second.attributes
  }

  ghost predicate PlansCorrespond(first: seq<Target>, second: seq<Target>)
  {
    forall target :: target in first ==> exists other :: other in second && SamePlanned(target, other)
  }

  /** Both code models have the same symbol under every ID. */
  ghost predicate SameLookup(first: seq<Symbol>, second: seq<Symbol>)
  {
    forall id :: FindSymbol(first, id) == FindSymbol(second, id)
  }

  lemma LockedAttributesContain(facts: Facts, symbol: Symbol, plans: seq<AttributePlan>, plan: AttributePlan)
    requires AreLockable(facts, symbol, plans)
    ensures plan in plans <==>
            LockedAttribute(facts, symbol, plan).Some? &&
            LockedAttribute(facts, symbol, plan).value in LockedAttributes(facts, symbol, plans)
  {
    var locked := LockedAttributes(facts, symbol, plans);
    if plan in plans {
      var i :| 0 <= i < |plans| && plans[i] == plan;
      assert locked[i] in locked;
    }
    if LockedAttribute(facts, symbol, plan).Some? && LockedAttribute(facts, symbol, plan).value in locked {
      var i :| 0 <= i < |plans| && locked[i] == LockedAttribute(facts, symbol, plan).value;
      assert plans[i] in plans && plans[i] == plan;
    }
  }

  /** Nothing of an attribute plan is lost. */
  lemma LockedAttributesMeaning(facts: Facts, symbol: Symbol, first: seq<AttributePlan>, second: seq<AttributePlan>)
    requires AreLockable(facts, symbol, first) && AreLockable(facts, symbol, second)
    requires DistinctKeys(LockedAttributes(facts, symbol, first), LockKey)
    requires DistinctKeys(LockedAttributes(facts, symbol, second), LockKey)
    ensures SortBy(LockedAttributes(facts, symbol, first), LockKey) ==
            SortBy(LockedAttributes(facts, symbol, second), LockKey) <==>
            forall plan :: plan in first <==> plan in second
  {
    hide LockedAttribute, DistinctKeys, SortBy;
    var a, b := LockedAttributes(facts, symbol, first), LockedAttributes(facts, symbol, second);
    SameSortMeaning(a, b, LockKey);
    forall plan
      ensures plan in first <==>
              LockedAttribute(facts, symbol, plan).Some? && LockedAttribute(facts, symbol, plan).value in a
      ensures plan in second <==>
              LockedAttribute(facts, symbol, plan).Some? && LockedAttribute(facts, symbol, plan).value in b
    {
      LockedAttributesContain(facts, symbol, first, plan);
      LockedAttributesContain(facts, symbol, second, plan);
    }
  }

  lemma LockedTargetMeaning(checks: Checks, facts: Facts, symbols: seq<Symbol>, first: Target, second: Target)
    requires IsLockable(checks, facts, symbols, first) && IsLockable(checks, facts, symbols, second)
    requires DistinctKeys(LockedTarget(checks, facts, symbols, first).attributes, LockKey)
    requires DistinctKeys(LockedTarget(checks, facts, symbols, second).attributes, LockKey)
    ensures CanonicalTarget(LockedTarget(checks, facts, symbols, first)) ==
            CanonicalTarget(LockedTarget(checks, facts, symbols, second)) <==>
            SamePlanned(first, second)
  {
    hide DistinctKeys, SortBy, LockedAttributes;
    if first.symbolId == second.symbolId {
      var symbol := FindSymbol(symbols, first.symbolId).value;
      LockedAttributesMeaning(facts, symbol, first.attributes, second.attributes);
    }
  }

  /** The pinned forms of one plan are among those of the other exactly if its targets correspond. */
  lemma DraftedTargetsMeaning(checks: Checks, facts: Facts, a: Input, b: Input)
    requires IsCreatable(checks, facts, a) && IsCreatable(checks, facts, b)
    requires a.code == b.code
    ensures (forall form :: form in CanonicalTargets(Drafted(checks, facts, a).targets) ==>
                            form in CanonicalTargets(Drafted(checks, facts, b).targets)) <==>
            PlansCorrespond(a.plan, b.plan)
  {
    hide IsLockable, LockedTarget, CanonicalTarget, DistinctKeys, SamePlanned;
    var symbols := a.code.value.symbols;
    var first, second := Drafted(checks, facts, a).targets, Drafted(checks, facts, b).targets;
    var forms, others := CanonicalTargets(first), CanonicalTargets(second);
    forall i, j | 0 <= i < |a.plan| && 0 <= j < |b.plan|
      ensures forms[i] == others[j] <==> SamePlanned(a.plan[i], b.plan[j])
    {
      assert first[i] in first && second[j] in second;
      LockedTargetMeaning(checks, facts, symbols, a.plan[i], b.plan[j]);
    }
    FormsMeaning(forms, others, a.plan, b.plan);
  }

  lemma FormsMeaning(forms: seq<LockTarget>, others: seq<LockTarget>, first: seq<Target>, second: seq<Target>)
    requires |forms| == |first| && |others| == |second|
    requires forall i, j :: 0 <= i < |first| && 0 <= j < |second| ==>
               (forms[i] == others[j] <==> SamePlanned(first[i], second[j]))
    ensures (forall form :: form in forms ==> form in others) <==> PlansCorrespond(first, second)
  {
    hide SamePlanned;
    if forall form :: form in forms ==> form in others {
      forall target | target in first
        ensures exists other :: other in second && SamePlanned(target, other)
      {
        var i :| 0 <= i < |first| && first[i] == target;
        assert forms[i] in forms;
        var j :| 0 <= j < |others| && others[j] == forms[i];
        assert second[j] in second;
      }
    }
    if PlansCorrespond(first, second) {
      forall form | form in forms
        ensures form in others
      {
        var i :| 0 <= i < |forms| && forms[i] == form;
        assert first[i] in first;
        var other :| other in second && SamePlanned(first[i], other);
        var j :| 0 <= j < |second| && second[j] == other;
        assert others[j] in others;
      }
    }
  }

  /**
   A lockfile pins the plan: of one analyzed project, two created lockfiles are equal exactly if the
   canonical policies, the module graphs and the backends are, and the plans and artifacts are up to order.
   */
  lemma LockPinsPlan(checks: Checks, facts: Facts, a: Input, b: Input)
    requires IsCreatable(checks, facts, a) && IsCreatable(checks, facts, b)
    requires a.code == b.code
    ensures CreatedLock(checks, facts, a) == CreatedLock(checks, facts, b) <==>
            && a.policy.value.text == b.policy.value.text && a.graph == b.graph && a.backend == b.backend
            && multiset(a.artifacts) == multiset(b.artifacts)
            && PlansCorrespond(a.plan, b.plan) && PlansCorrespond(b.plan, a.plan)
  {
    hide IsLockable, LockedTarget, CanonicalTargets, DistinctKeys, SortBy, PlansCorrespond;
    var first, second := Drafted(checks, facts, a), Drafted(checks, facts, b);
    CanonicalTargetsContain(first.targets);
    CanonicalTargetsContain(second.targets);
    SameSortMeaning(CanonicalTargets(first.targets), CanonicalTargets(second.targets), TargetSymbol);
    DraftedTargetsMeaning(checks, facts, a, b);
    DraftedTargetsMeaning(checks, facts, b, a);
    SameSortedArtifacts(a.artifacts, b.artifacts);
  }

  lemma SameSortedArtifacts(a: seq<ArtifactFile>, b: seq<ArtifactFile>)
    requires DistinctKeys(a, ArtifactPath) && DistinctKeys(b, ArtifactPath)
    ensures SortBy(a, ArtifactPath) == SortBy(b, ArtifactPath) <==> multiset(a) == multiset(b)
  {
    hide SortBy, SortedBy, DistinctKeys;
    SortBySorts(a, ArtifactPath);
    SortBySorts(b, ArtifactPath);
    if multiset(a) == multiset(b) {
      SortIgnoresOrder(a, b, ArtifactPath);
    }
  }

  // ------------------------------------------------------------------------ declaration order

  lemma {:induction false} FindSymbolMeaning(symbols: seq<Symbol>, id: string)
    requires DistinctKeys(symbols, Resolution.SymbolIdOf)
    ensures forall symbol :: FindSymbol(symbols, id) == Some(symbol) <==> symbol in symbols && symbol.id == id
  {
    if |symbols| == 0 {
    } else {
      assert DistinctKeys(symbols[1..], Resolution.SymbolIdOf);
      TailElements(symbols, Resolution.SymbolIdOf);
      FindSymbolMeaning(symbols[1..], id);
    }
  }

  lemma LookupIgnoresOrder(first: seq<Symbol>, second: seq<Symbol>)
    requires DistinctKeys(first, Resolution.SymbolIdOf) && multiset(first) == multiset(second)
    ensures SameLookup(first, second)
  {
    hide FindSymbol, DistinctKeys;
    DistinctKeysOfPermutation(first, second, Resolution.SymbolIdOf);
    SameElements(first, second);
    forall id
      ensures FindSymbol(first, id) == FindSymbol(second, id)
    {
      FindSymbolMeaning(first, id);
      FindSymbolMeaning(second, id);
      SameOption(FindSymbol(first, id), FindSymbol(second, id));
    }
  }

  lemma SameOption<T(!new)>(a: Option<T>, b: Option<T>)
    requires forall x :: a == Some(x) <==> b == Some(x)
    ensures a == b
  {
    if a.Some? {
      assert b == Some(a.value);
    }
    if b.Some? {
      assert a == Some(b.value);
    }
  }

  /** What the lockfile of a validated policy and its resolution is created from. */
  ghost function ResolvedInput(matcher: SegmentMatcher, policy: Policy, encode: Policy -> Option<string>,
                               pinned: string -> (string, string), code: CodeModel, backend: LockBackend,
                               graph: Digest): Input
  {
    var (name, version) := pinned(policy.settings);
    Input(Some(PolicyInput(name, version, encode(CanonicalPolicy(policy)))), Some(code),
          Resolution.ResolveSpec(matcher, policy, [], Some(code)).plan.targets, backend, graph, [])
  }

  lemma SameDraft(checks: Checks, facts: Facts, a: Input, b: Input)
    requires a.code.Some? && b.code.Some? && SameLookup(a.code.value.symbols, b.code.value.symbols)
    requires a == b.(code := a.code)
    ensures CreatedLock(checks, facts, a) == CreatedLock(checks, facts, b)
  {
    hide ValidLock, Canonical, DistinctKeys, LockedAttributes, AreLockable;
    var symbols, others := a.code.value.symbols, b.code.value.symbols;
    assert forall target :: IsLockable(checks, facts, symbols, target) == IsLockable(checks, facts, others, target);
    if AllLockable(checks, facts, a) {
      assert Drafted(checks, facts, a).targets == Drafted(checks, facts, b).targets;
    }
  }

  /**
   From the policy to the lockfile, declaration order and repeated values never show: two policies
   that are the same up to them give one lockfile, or both give none.
   */
  lemma LockIgnoresDeclarations(checks: Checks, facts: Facts, matcher: SegmentMatcher, first: Policy, second: Policy,
                                encode: Policy -> Option<string>, pinned: string -> (string, string),
                                code: CodeModel, code': CodeModel, backend: LockBackend, graph: Digest)
    requires Resolution.UniqueIdentities(first) && Resolution.UniqueIdentities(second)
    requires DistinctKeys(code.symbols, Resolution.SymbolIdOf)
    requires SamePolicy(first, second)
    requires multiset(code.symbols) == multiset(code'.symbols) && code.interfaceMethods == code'.interfaceMethods
    ensures CreatedLock(checks, facts, ResolvedInput(matcher, first, encode, pinned, code, backend, graph)) ==
            CreatedLock(checks, facts, ResolvedInput(matcher, second, encode, pinned, code', backend, graph))
  {
    hide CreatedLock, CanonicalPolicy, Resolution.ResolveSpec, DistinctKeys, FindSymbol;
    PolicyFormMeaning(first, second);
    EqualFormsResolveAlike(matcher, first, second, Some(code));
    ResolutionProperties.DeclarationOrderIsIrrelevant(matcher, second, second, [], code, code');
    LookupIgnoresOrder(code.symbols, code'.symbols);
    SameDraft(checks, facts, ResolvedInput(matcher, first, encode, pinned, code, backend, graph),
              ResolvedInput(matcher, second, encode, pinned, code', backend, graph));
  }
}
