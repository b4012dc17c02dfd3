/** The lockfile, what makes one valid, and its canonical order (internal/lockfile/lockfile.go). */
module Lockfiles {
  import opened Orders
  import opened Policies

  const LOCK_API_VERSION := "otelplan.io/lock/v1alpha1"

  /** A digest field: empty, the SHA-256 digest of some content, or text that is not a digest. */
  datatype Digest = NoDigest | Sha256(content: string) | Malformed(text: string)

  datatype LockContext = LockContext(strategy: string, index: int)

  datatype LockErrors = LockErrors(record: bool, indexes: seq<int>)

  datatype LockAttribute = LockAttribute(
    key: string, source: AttributeSource, kind: string, stringer: bool, classification: string, allow: bool,
    symbolValue: Option<string>)

  datatype Location = Location(file: string, line: int, column: int)

  datatype LockTarget = LockTarget(
    symbol: string, signature: string, signatureDigest: Digest, sourceRule: string, spanName: string,
    context: LockContext, errors: LockErrors, attributes: seq<LockAttribute>, location: Location)

  datatype LockBackend = LockBackend(name: string, version: string, digest: Digest, capabilities: seq<bool>)

  datatype ArtifactFile = ArtifactFile(path: string, digest: Digest)

  datatype Lockfile = Lockfile(
    apiVersion: string, policyDigest: Digest, goVersion: string, moduleGraphDigest: Digest, backend: LockBackend,
    targets: seq<LockTarget>, artifacts: seq<ArtifactFile>)

  /** `var empty model.Lockfile`. */
  const EMPTY_LOCK :=
    Lockfile("", NoDigest, "", NoDigest, LockBackend("", "", NoDigest, []), [], [])

  function TargetSymbol(target: LockTarget): string { target.symbol }

  function LockKey(attribute: LockAttribute): string { attribute.key }

  function ArtifactPath(artifact: ArtifactFile): string { artifact.path }

  // -------------------------------------------------------------------------------- validity

  /**
   Checks on single values that are not spelled out here: pinned semantic versions, clean relative
   paths, and names or positions of error results.
   */
  datatype Checks = Checks(pinned: string -> bool, relative: string -> bool, errorSelector: string -> bool)

  const STRING_KIND := "string"

  const SYMBOL_FIELDS := {"id", "package", "packageName", "name", "receiver", "signature", "kind"}

  /** The sources an attribute names. */
  function SourcesOf(source: AttributeSource): set<string>
  {
    (if source.argument != "" then {"argument"} else {}) + (if source.result != "" then {"result"} else {}) +
    (if source.constant.Some? then {"constant"} else {}) + (if source.symbol != "" then {"symbol"} else {}) +
    (if source.errorType != "" then {"errorType"} else {})
  }

  /**
   One attribute is valid: its kind is a scalar kind, a symbol value is recorded exactly for symbol
   metadata, and metadata, error types and `String` calls are strings with that one source.
   */
  predicate ValidAttribute(checks: Checks, attribute: LockAttribute)
  {
    var sources := SourcesOf(attribute.source);
    && attribute.kind in {"bool", "integer", "float", STRING_KIND}
    && (attribute.symbolValue.Some? <==> "symbol" in sources)
    && ("symbol" in sources ==>
          sources == {"symbol"} && attribute.kind == STRING_KIND && attribute.source.symbol in SYMBOL_FIELDS)
    && ("errorType" in sources ==>
          sources == {"errorType"} && attribute.kind == STRING_KIND && checks.errorSelector(attribute.source.errorType))
    && (attribute.stringer ==>
          (sources == {"argument"} || sources == {"result"}) && attribute.kind == STRING_KIND)
  }

  predicate ValidIdentity(checks: Checks, lock: Lockfile)
  {
    && lock.apiVersion == LOCK_API_VERSION && lock.policyDigest.Sha256? && lock.moduleGraphDigest.Sha256?
    && lock.goVersion != "" && lock.backend.name != "" && checks.pinned(lock.backend.version)
    && !lock.backend.digest.Malformed?
  }

  predicate ValidTarget(checks: Checks, target: LockTarget)
  {
    && checks.relative(target.location.file)
    && (target.context.strategy == "argument" || target.context.strategy == "root")
    && target.context.index >= 0
    && (forall index :: index in target.errors.indexes ==> index >= 0 && target.errors.record)
    && (forall attribute :: attribute in target.attributes ==> attribute.key != "" && ValidAttribute(checks, attribute))
    && target.symbol != "" && target.sourceRule != "" && target.spanName != ""
    && target.signatureDigest == Sha256(target.signature)
  }

  /** No symbol, attribute key or artifact path is repeated. */
  ghost predicate UniqueLock(lock: Lockfile)
  {
    && DistinctKeys(lock.targets, TargetSymbol)
    && (forall target :: target in lock.targets ==> DistinctKeys(target.attributes, LockKey))
    && DistinctKeys(lock.artifacts, ArtifactPath)
  }

  /** `check`: what `Parse` and `Marshal` demand of a lockfile. */
  ghost predicate ValidLock(checks: Checks, lock: Lockfile)
  {
    && ValidIdentity(checks, lock)
    && (forall target :: target in lock.targets ==> ValidTarget(checks, target))
    && (forall artifact :: artifact in lock.artifacts ==> checks.relative(artifact.path) && artifact.digest.Sha256?)
    && UniqueLock(lock)
  }

  // --------------------------------------------------------------------------- canonical order

  function CanonicalTarget(target: LockTarget): LockTarget
  {
    target.(attributes := SortBy(target.attributes, LockKey))
  }

  function CanonicalTargets(targets: seq<LockTarget>): (r: seq<LockTarget>)
    ensures |r| == |targets| && forall i :: 0 <= i < |targets| ==> r[i] == CanonicalTarget(targets[i])
  {
    seq(|targets|, i requires 0 <= i < |targets| => CanonicalTarget(targets[i]))
  }

  function Canonical(lock: Lockfile): Lockfile
  {
    lock.(targets := SortBy(CanonicalTargets(lock.targets), TargetSymbol),
          artifacts := SortBy(lock.artifacts, ArtifactPath))
  }

  lemma CanonicalTargetsContain(targets: seq<LockTarget>)
    ensures forall t :: t in CanonicalTargets(targets) <==> exists u :: u in targets && CanonicalTarget(u) == t
    ensures DistinctKeys(CanonicalTargets(targets), TargetSymbol) <==> DistinctKeys(targets, TargetSymbol)
  {
  }

  lemma KeepSymbol(target: LockTarget)
    ensures CanonicalTarget(target).symbol == target.symbol
  {
  }

  /** What a canonical lockfile contains, and that it is in canonical order already. */
  lemma CanonicalContents(lock: Lockfile)
    requires UniqueLock(lock)
    ensures var canonical := Canonical(lock);
            && (forall t :: t in canonical.targets <==> exists u :: u in lock.targets && CanonicalTarget(u) == t)
            && (forall a :: a in canonical.artifacts <==> a in lock.artifacts)
            && UniqueLock(canonical)
  {
    hide SortBy, SortedBy;
    var targets := CanonicalTargets(lock.targets);
    CanonicalTargetsContain(lock.targets);
    SortBySorts(targets, TargetSymbol);
    SortBySorts(lock.artifacts, ArtifactPath);
    SameElements(SortBy(targets, TargetSymbol), targets);
    SameElements(SortBy(lock.artifacts, ArtifactPath), lock.artifacts);
    DistinctKeysOfPermutation(targets, SortBy(targets, TargetSymbol), TargetSymbol);
    DistinctKeysOfPermutation(lock.artifacts, SortBy(lock.artifacts, ArtifactPath), ArtifactPath);
    forall t | t in Canonical(lock).targets
      ensures DistinctKeys(t.attributes, LockKey)
    {
      var u :| u in lock.targets && CanonicalTarget(u) == t;
      SortBySorts(u.attributes, LockKey);
      DistinctKeysOfPermutation(u.attributes, t.attributes, LockKey);
    }
  }

  lemma SortedAlready<T(!new)>(s: seq<T>, key: T -> string)
    requires SortedBy(s, key) && DistinctKeys(s, key)
    ensures SortBy(s, key) == s
  {
    hide Less;
    SortBySorts(s, key);
    SortedIsUnique(s, SortBy(s, key), key);
  }

  lemma CanonicalIsStable(lock: Lockfile)
    requires UniqueLock(lock)
    ensures Canonical(Canonical(lock)) == Canonical(lock)
  {
    hide SortBy, SortedBy, Less;
    var canonical := Canonical(lock);
    CanonicalContents(lock);
    SortBySorts(CanonicalTargets(lock.targets), TargetSymbol);
    SortBySorts(lock.artifacts, ArtifactPath);
    SortedAlready(canonical.artifacts, ArtifactPath);
    forall i | 0 <= i < |canonical.targets|
      ensures CanonicalTargets(canonical.targets)[i] == canonical.targets[i]
    {
      var t := canonical.targets[i];
      assert t in canonical.targets;
      var u :| u in lock.targets && CanonicalTarget(u) == t;
      SortBySorts(u.attributes, LockKey);
      SortedAlready(t.attributes, LockKey);
    }
    assert CanonicalTargets(canonical.targets) == canonical.targets;
    SortedAlready(canonical.targets, TargetSymbol);
  }

  // ------------------------------------------------------------------- any order by the keys

  ghost predicate IsTargetOrder(r: LockTarget, target: LockTarget)
  {
    IsSortOf(r.attributes, target.attributes, LockKey) && r == target.(attributes := r.attributes)
  }

  ghost predicate AreTargetOrders(r: seq<LockTarget>, targets: seq<LockTarget>)
  {
    |r| == |targets| && forall i :: 0 <= i < |targets| ==> IsTargetOrder(r[i], targets[i])
  }

  /** The lockfile with targets, artifacts and attributes sorted; equal keys come in any order. */
  ghost predicate IsOrderOf(r: Lockfile, lock: Lockfile)
  {
    && r == lock.(targets := r.targets, artifacts := r.artifacts)
    && IsSortOf(r.artifacts, lock.artifacts, ArtifactPath)
    && exists targets: seq<LockTarget> ::
         AreTargetOrders(targets, lock.targets) && IsSortOf(r.targets, targets, TargetSymbol)
  }

  lemma CanonicalIsOrder(lock: Lockfile)
    ensures IsOrderOf(Canonical(lock), lock)
  {
    hide SortBy, SortedBy;
    var targets := CanonicalTargets(lock.targets);
    forall i | 0 <= i < |targets|
      ensures IsTargetOrder(targets[i], lock.targets[i])
    {
      SortBySorts(lock.targets[i].attributes, LockKey);
    }
    assert AreTargetOrders(targets, lock.targets);
    SortBySorts(targets, TargetSymbol);
    SortBySorts(lock.artifacts, ArtifactPath);
  }

  /** Without repeated symbols, keys and paths there is one order. */
  lemma OrderIsCanonical(r: Lockfile, lock: Lockfile)
    requires UniqueLock(lock) && IsOrderOf(r, lock)
    ensures r == Canonical(lock)
  {
    hide SortBy, SortedBy, DistinctKeys;
    var targets: seq<LockTarget> :|
      AreTargetOrders(targets, lock.targets) && IsSortOf(r.targets, targets, TargetSymbol);
    forall i | 0 <= i < |targets|
      ensures targets[i] == CanonicalTargets(lock.targets)[i]
    {
      assert lock.targets[i] in lock.targets && IsTargetOrder(targets[i], lock.targets[i]);
      SortIsSortBy(targets[i].attributes, lock.targets[i].attributes, LockKey);
    }
    assert targets == CanonicalTargets(lock.targets);
    CanonicalTargetsContain(lock.targets);
    SortIsSortBy(r.targets, targets, TargetSymbol);
    SortIsSortBy(r.artifacts, lock.artifacts, ArtifactPath);
  }

  lemma SortIsSortBy<T(!new)>(r: seq<T>, s: seq<T>, key: T -> string)
    requires IsSortOf(r, s, key) && DistinctKeys(s, key)
    ensures r == SortBy(s, key)
  {
    hide SortBy, SortedBy, DistinctKeys;
    SortBySorts(s, key);
    DistinctKeysOfPermutation(s, r, key);
    SortedIsUnique(r, SortBy(s, key), key);
  }

  lemma OrderOfTarget(checks: Checks, r: LockTarget, target: LockTarget)
    requires IsTargetOrder(r, target)
    ensures r.symbol == target.symbol
    ensures ValidTarget(checks, r) <==> ValidTarget(checks, target)
    ensures DistinctKeys(r.attributes, LockKey) <==> DistinctKeys(target.attributes, LockKey)
  {
    hide SortedBy, DistinctKeys, ValidAttribute;
    SameElements(r.attributes, target.attributes);
    SameDistinctKeys(r.attributes, target.attributes, LockKey);
  }

  lemma SameDistinctKeys<T(!new)>(a: seq<T>, b: seq<T>, key: T -> string)
    requires multiset(a) == multiset(b)
    ensures DistinctKeys(a, key) <==> DistinctKeys(b, key)
  {
    hide DistinctKeys;
    if DistinctKeys(a, key) {
      DistinctKeysOfPermutation(a, b, key);
    }
    if DistinctKeys(b, key) {
      DistinctKeysOfPermutation(b, a, key);
    }
  }

  ghost predicate ValidTargets(checks: Checks, targets: seq<LockTarget>)
  {
    && DistinctKeys(targets, TargetSymbol)
    && forall t :: t in targets ==> ValidTarget(checks, t) && DistinctKeys(t.attributes, LockKey)
  }

  lemma OrderOfTargets(checks: Checks, r: seq<LockTarget>, targets: seq<LockTarget>)
    requires AreTargetOrders(r, targets)
    ensures ValidTargets(checks, r) <==> ValidTargets(checks, targets)
  {
    hide ValidTarget, IsTargetOrder;
    forall i | 0 <= i < |targets|
      ensures TargetSymbol(r[i]) == TargetSymbol(targets[i]) && r[i] in r && targets[i] in targets
      ensures ValidTarget(checks, r[i]) <==> ValidTarget(checks, targets[i])
      ensures DistinctKeys(r[i].attributes, LockKey) <==> DistinctKeys(targets[i].attributes, LockKey)
    {
      OrderOfTarget(checks, r[i], targets[i]);
    }
    SameKeys(r, targets);
    hide DistinctKeys;
  }

  lemma SameKeys(r: seq<LockTarget>, targets: seq<LockTarget>)
    requires |r| == |targets| && forall i :: 0 <= i < |targets| ==> TargetSymbol(r[i]) == TargetSymbol(targets[i])
    ensures DistinctKeys(r, TargetSymbol) <==> DistinctKeys(targets, TargetSymbol)
  {
  }

  ghost predicate ValidArtifacts(checks: Checks, artifacts: seq<ArtifactFile>)
  {
    && DistinctKeys(artifacts, ArtifactPath)
    && forall a :: a in artifacts ==> checks.relative(a.path) && a.digest.Sha256?
  }

  lemma ValidParts(checks: Checks, lock: Lockfile)
    ensures ValidLock(checks, lock) <==>
            && ValidIdentity(checks, lock) && ValidTargets(checks, lock.targets)
            && ValidArtifacts(checks, lock.artifacts)
  {
    hide DistinctKeys, ValidTarget, ValidIdentity;
  }

  /** However equal keys are ordered, sorting changes nothing about validity. */
  lemma OrderKeepsValidity(checks: Checks, r: Lockfile, lock: Lockfile)
    requires IsOrderOf(r, lock)
    ensures ValidLock(checks, r) <==> ValidLock(checks, lock)
  {
    hide SortedBy, DistinctKeys, ValidTarget, ValidLock, AreTargetOrders;
    var targets: seq<LockTarget> :|
      AreTargetOrders(targets, lock.targets) && IsSortOf(r.targets, targets, TargetSymbol);
    OrderOfTargets(checks, targets, lock.targets);
    SameElements(r.targets, targets);
    SameDistinctKeys(r.targets, targets, TargetSymbol);
    SameElements(r.artifacts, lock.artifacts);
    SameDistinctKeys(r.artifacts, lock.artifacts, ArtifactPath);
    ValidParts(checks, r);
    ValidParts(checks, lock);
  }

  lemma CanonicalIsValid(checks: Checks, lock: Lockfile)
    ensures ValidLock(checks, Canonical(lock)) <==> ValidLock(checks, lock)
  {
    hide Canonical, ValidLock;
    CanonicalIsOrder(lock);
    OrderKeepsValidity(checks, Canonical(lock), lock);
  }

  /** `canonical`: clone, sort the attributes of every target in place, then targets and artifacts. */
  method CanonicalizeLock(lock: Lockfile) returns (r: Lockfile)
    ensures IsOrderOf(r, lock)
    ensures UniqueLock(lock) ==> r == Canonical(lock)
  {
    hide SortedBy, UniqueLock, Canonical;
    var targets := lock.targets;
    for i := 0 to |targets|
      invariant |targets| == |lock.targets|
      invariant forall k :: 0 <= k < i ==> IsTargetOrder(targets[k], lock.targets[k])
      invariant forall k :: i <= k < |targets| ==> targets[k] == lock.targets[k]
    {
      var attributes := Sort(targets[i].attributes, LockKey);
      targets := targets[i := targets[i].(attributes := attributes)];
    }
    ghost var ordered := targets;
    assert AreTargetOrders(ordered, lock.targets);
    targets := Sort(targets, TargetSymbol);
    var artifacts := Sort(lock.artifacts, ArtifactPath);
    r := lock.(targets := targets, artifacts := artifacts);
    assert IsOrderOf(r, lock);
    if UniqueLock(lock) {
      OrderIsCanonical(r, lock);
    }
  }

  // ---------------------------------------------------------------------------- checking

  /** How a `seen` set decides whether the next key repeats an earlier one. */
  lemma SeenDecides<T(!new)>(s: seq<T>, key: T -> string, k: nat, seen: set<string>)
    requires k < |s| && DistinctKeys(s[..k], key)
    requires forall x :: x in seen <==> exists i :: 0 <= i < k && key(s[i]) == x
    ensures DistinctKeys(s[..k + 1], key) <==> key(s[k]) !in seen
    ensures key(s[k]) in seen ==> !DistinctKeys(s, key)
    ensures forall x :: x in seen + {key(s[k])} <==> exists i :: 0 <= i < k + 1 && key(s[i]) == x
  {
  }

  /** `checkStringerAttribute`. */
  method CheckStringerAttribute(attribute: LockAttribute) returns (ok: bool)
    ensures ok <==>
            (attribute.stringer ==>
               && (SourcesOf(attribute.source) == {"argument"} || SourcesOf(attribute.source) == {"result"})
               && attribute.kind == STRING_KIND && attribute.symbolValue.None?)
  {
    var sources := SourcesOf(attribute.source);
    assert "argument" in sources <==> attribute.source.argument != "";
    if !attribute.stringer {
      return true;
    }
    if (attribute.source.argument != "") == (attribute.source.result != "") {
      return false;
    }
    if attribute.source.constant.Some? || attribute.source.symbol != "" || attribute.source.errorType != "" {
      return false;
    }
    return attribute.kind == STRING_KIND && attribute.symbolValue.None?;
  }

  /** `checkSymbolAttribute`. */
  method CheckSymbolAttribute(attribute: LockAttribute) returns (ok: bool)
    ensures ok <==>
            if "symbol" in SourcesOf(attribute.source)
            then
              && attribute.symbolValue.Some? && attribute.kind == STRING_KIND && !attribute.stringer
              && SourcesOf(attribute.source) == {"symbol"} && attribute.source.symbol in SYMBOL_FIELDS
            else attribute.symbolValue.None?
  {
    if attribute.source.symbol == "" {
      return attribute.symbolValue.None?;
    }
    if attribute.symbolValue.None? || attribute.kind != STRING_KIND {
      return false;
    }
    return SourcesOf(attribute.source) == {"symbol"} && !attribute.stringer && attribute.source.symbol in SYMBOL_FIELDS;
  }

  /** `checkErrorTypeAttribute`. */
  method CheckErrorTypeAttribute(checks: Checks, attribute: LockAttribute) returns (ok: bool)
    ensures ok <==>
            ("errorType" in SourcesOf(attribute.source) ==>
               && SourcesOf(attribute.source) == {"errorType"} && attribute.kind == STRING_KIND
               && attribute.symbolValue.None? && checks.errorSelector(attribute.source.errorType))
  {
    var source := attribute.source;
    if source.errorType == "" {
      return true;
    }
    return source.argument == "" && source.result == "" && source.symbol == "" && source.constant.None? &&
           attribute.kind == STRING_KIND && attribute.symbolValue.None? && checks.errorSelector(source.errorType);
  }

  /** The checks on one attribute that `checkAttributes` makes in turn. */
  method CheckAttribute(checks: Checks, attribute: LockAttribute) returns (ok: bool)
    ensures ok <==> ValidAttribute(checks, attribute)
  {
    hide SourcesOf;
    ok := CheckStringerAttribute(attribute);
    if ok {
      ok := CheckSymbolAttribute(attribute);
    }
    if ok {
      ok := CheckErrorTypeAttribute(checks, attribute);
    }
    return ok && attribute.kind in {"bool", "integer", "float", STRING_KIND};
  }

  method CheckAttributes(checks: Checks, attributes: seq<LockAttribute>) returns (ok: bool)
    ensures ok <==> DistinctKeys(attributes, LockKey) &&
                    forall a :: a in attributes ==> a.key != "" && ValidAttribute(checks, a)
  {
    hide DistinctKeys, ValidAttribute;
    var keys: set<string> := {};
    assert DistinctKeys(attributes[..0], LockKey) by { NoKeys(attributes[..0], LockKey); }
    for k := 0 to |attributes|
      invariant DistinctKeys(attributes[..k], LockKey)
      invariant forall x :: x in keys <==> exists i :: 0 <= i < k && LockKey(attributes[i]) == x
      invariant forall i :: 0 <= i < k ==> attributes[i].key != "" && ValidAttribute(checks, attributes[i])
    {
      var attribute := attributes[k];
      assert attribute in attributes;
      SeenDecides(attributes, LockKey, k, keys);
      if attribute.key == "" || attribute.key in keys {
        return false;
      }
      keys := keys + {attribute.key};
      var valid := CheckAttribute(checks, attribute);
      if !valid {
        return false;
      }
    }
    assert attributes[..|attributes|] == attributes;
    return true;
  }

  lemma NoKeys<T(!new)>(s: seq<T>, key: T -> string)
    requires s == []
    ensures DistinctKeys(s, key)
  {
  }

  method CheckTarget(checks: Checks, target: LockTarget) returns (ok: bool)
    ensures ok && target.symbol != "" && target.sourceRule != "" && target.spanName != "" &&
            target.signatureDigest == Sha256(target.signature) <==>
            ValidTarget(checks, target) && DistinctKeys(target.attributes, LockKey)
  {
    hide DistinctKeys;
    if !checks.relative(target.location.file) ||
       (target.context.strategy != "argument" && target.context.strategy != "root") || target.context.index < 0 {
      return false;
    }
    for k := 0 to |target.errors.indexes|
      invariant forall i :: 0 <= i < k ==> target.errors.indexes[i] >= 0 && target.errors.record
    {
      if target.errors.indexes[k] < 0 || !target.errors.record {
        assert target.errors.indexes[k] in target.errors.indexes;
        return false;
      }
    }
    ok := CheckAttributes(checks, target.attributes);
  }

  method CheckTargets(checks: Checks, targets: seq<LockTarget>) returns (ok: bool)
    ensures ok <==> ValidTargets(checks, targets)
  {
    hide DistinctKeys, ValidTarget;
    var seen: set<string> := {};
    assert DistinctKeys(targets[..0], TargetSymbol) by { NoKeys(targets[..0], TargetSymbol); }
    for k := 0 to |targets|
      invariant DistinctKeys(targets[..k], TargetSymbol)
      invariant forall x :: x in seen <==> exists i :: 0 <= i < k && TargetSymbol(targets[i]) == x
      invariant forall i :: 0 <= i < k ==>
                  ValidTarget(checks, targets[i]) && DistinctKeys(targets[i].attributes, LockKey)
    {
      var target := targets[k];
      assert target in targets;
      SeenDecides(targets, TargetSymbol, k, seen);
      var valid := CheckTarget(checks, target);
      if !valid {
        return false;
      }
      if target.symbol == "" || target.symbol in seen || target.sourceRule == "" || target.spanName == "" ||
         target.signatureDigest != Sha256(target.signature) {
        return false;
      }
      seen := seen + {target.symbol};
    }
    assert targets[..|targets|] == targets;
    return true;
  }

  method CheckArtifacts(checks: Checks, artifacts: seq<ArtifactFile>) returns (ok: bool)
    ensures ok <==> ValidArtifacts(checks, artifacts)
  {
    hide DistinctKeys;
    var paths: set<string> := {};
    assert DistinctKeys(artifacts[..0], ArtifactPath) by { NoKeys(artifacts[..0], ArtifactPath); }
    for k := 0 to |artifacts|
      invariant DistinctKeys(artifacts[..k], ArtifactPath)
      invariant forall x :: x in paths <==> exists i :: 0 <= i < k && ArtifactPath(artifacts[i]) == x
      invariant forall i :: 0 <= i < k ==> checks.relative(artifacts[i].path) && artifacts[i].digest.Sha256?
    {
      var artifact := artifacts[k];
      assert artifact in artifacts;
      SeenDecides(artifacts, ArtifactPath, k, paths);
      if !checks.relative(artifact.path) || artifact.path in paths || !artifact.digest.Sha256? {
        return false;
      }
      paths := paths + {artifact.path};
    }
    assert artifacts[..|artifacts|] == artifacts;
    return true;
  }

  /** `check`, with the `seen` maps that reject repeated symbols, keys and paths. */
  method CheckLock(checks: Checks, lock: Lockfile) returns (ok: bool)
    ensures ok <==> ValidLock(checks, lock)
  {
    hide DistinctKeys, ValidTarget, ValidLock;
    ValidParts(checks, lock);
    if !ValidIdentity(checks, lock) {
      return false;
    }
    ok := CheckTargets(checks, lock.targets);
    if ok {
      ok := CheckArtifacts(checks, lock.artifacts);
    }
  }

  // ------------------------------------------------------------------------------- encoding

  /** The bytes of a file: the JSON encoding of a lockfile, or anything else. */
  datatype Contents = Encoding(lock: Lockfile) | Garbage(text: string)

  ghost predicate Parses(checks: Checks, contents: Contents)
  {
    contents.Encoding? && ValidLock(checks, contents.lock)
  }

  /** `Marshal`: the canonical encoding of a valid lockfile, nothing for an invalid one. */
  method Marshal(checks: Checks, lock: Lockfile) returns (contents: Option<Contents>)
    ensures contents == if ValidLock(checks, lock) then Some(Encoding(Canonical(lock))) else None
  {
    hide IsOrderOf, DistinctKeys, ValidTarget, ValidIdentity, Canonical, UniqueLock;
    var canonical := CanonicalizeLock(lock);
    OrderKeepsValidity(checks, canonical, lock);
    var ok := CheckLock(checks, canonical);
    if ok {
      return Some(Encoding(canonical));
    }
    return None;
  }

  method Parse(checks: Checks, contents: Contents) returns (lock: Option<Lockfile>)
    ensures lock == if Parses(checks, contents) then Some(contents.lock) else None
  {
    match contents
    case Garbage(_) =>
      return None;
    case Encoding(decoded) =>
      var ok := CheckLock(checks, decoded);
      return if ok then Some(decoded) else None;
  }

  // ---------------------------------------------------------------------- validity, spelled out

  /** What each target must be. */
  ghost predicate IsComplete(checks: Checks, target: LockTarget)
  {
    && target.symbol != "" && target.sourceRule != "" && target.spanName != ""
    && target.signatureDigest == Sha256(target.signature) && checks.relative(target.location.file)
    && (target.context.strategy == "argument" || target.context.strategy == "root") && target.context.index >= 0
    && (|target.errors.indexes| > 0 ==> target.errors.record)
    && (forall i :: 0 <= i < |target.errors.indexes| ==> target.errors.indexes[i] >= 0)
    && (forall a :: a in target.attributes ==> a.key != "" && IsSensible(checks, a))
    && (forall i, j :: 0 <= i < j < |target.attributes| ==> target.attributes[i].key != target.attributes[j].key)
  }

  /** A scalar from one source; what is metadata, an error type or read through `String` is a string. */
  ghost predicate IsSensible(checks: Checks, a: LockAttribute)
  {
    var s := a.source;
    && a.kind in {"bool", "integer", "float", "string"}
    && (s.symbol != "" <==> a.symbolValue.Some?)
    && (s.symbol != "" ==>
          && s.argument == "" && s.result == "" && s.errorType == "" && s.constant.None? && a.kind == "string"
          && s.symbol in {"id", "package", "packageName", "name", "receiver", "signature", "kind"})
    && (s.errorType != "" ==>
          && s.argument == "" && s.result == "" && s.symbol == "" && s.constant.None? && a.kind == "string"
          && checks.errorSelector(s.errorType))
    && (a.stringer ==>
          && ((s.argument != "" && s.result == "") || (s.argument == "" && s.result != ""))
          && s.symbol == "" && s.errorType == "" && s.constant.None? && a.kind == "string")
  }

  lemma SourcesMeaning(source: AttributeSource)
    ensures "symbol" in SourcesOf(source) <==> source.symbol != ""
    ensures "errorType" in SourcesOf(source) <==> source.errorType != ""
    ensures SourcesOf(source) == {"symbol"} <==>
            source.argument == "" && source.result == "" && source.constant.None? && source.symbol != "" &&
            source.errorType == ""
    ensures SourcesOf(source) == {"errorType"} <==>
            source.argument == "" && source.result == "" && source.constant.None? && source.symbol == "" &&
            source.errorType != ""
    ensures SourcesOf(source) == {"argument"} || SourcesOf(source) == {"result"} <==>
            (source.argument != "" <==> source.result == "") && source.constant.None? && source.symbol == "" &&
            source.errorType == ""
  {
    var sources := SourcesOf(source);
    assert "argument" in sources <==> source.argument != "";
    assert "result" in sources <==> source.result != "";
    assert "constant" in sources <==> source.constant.Some?;
  }

  lemma AttributeMeaning(checks: Checks, a: LockAttribute)
    ensures ValidAttribute(checks, a) <==> IsSensible(checks, a)
  {
    hide SourcesOf;
    SourcesMeaning(a.source);
  }

  lemma IndexMeaning(indexes: seq<int>, record: bool)
    ensures (forall index :: index in indexes ==> index >= 0 && record) <==>
            (|indexes| > 0 ==> record) && forall i :: 0 <= i < |indexes| ==> indexes[i] >= 0
  {
    if forall index :: index in indexes ==> index >= 0 && record {
      assert |indexes| > 0 ==> indexes[0] in indexes;
      assert forall i :: 0 <= i < |indexes| ==> indexes[i] in indexes;
    }
  }

  lemma TargetValidity(checks: Checks, target: LockTarget)
    ensures ValidTarget(checks, target) && DistinctKeys(target.attributes, LockKey) <==> IsComplete(checks, target)
  {
    hide ValidAttribute, IsSensible;
    forall a
      ensures ValidAttribute(checks, a) <==> IsSensible(checks, a)
    {
      AttributeMeaning(checks, a);
    }
    assert forall i, j :: 0 <= i < |target.attributes| && 0 <= j < |target.attributes| ==>
             (LockKey(target.attributes[i]) == LockKey(target.attributes[j]) <==>
              target.attributes[i].key == target.attributes[j].key);
    var indexes := target.errors.indexes;
    assert (forall index :: index in indexes ==> index >= 0 && target.errors.record) <==>
           (|indexes| > 0 ==> target.errors.record) && forall i :: 0 <= i < |indexes| ==> indexes[i] >= 0 by {
      IndexMeaning(indexes, target.errors.record);
    }
  }

  /** A lockfile is valid exactly if its identity, its targets and its artifacts are complete and none is repeated. */
  lemma ValidityMeaning(checks: Checks, lock: Lockfile)
    ensures ValidLock(checks, lock) <==>
            && lock.apiVersion == "otelplan.io/lock/v1alpha1" && lock.goVersion != ""
            && lock.policyDigest.Sha256? && lock.moduleGraphDigest.Sha256?
            && lock.backend.name != "" && checks.pinned(lock.backend.version)
            && (lock.backend.digest.Sha256? || lock.backend.digest.NoDigest?)
            && (forall t :: t in lock.targets ==> IsComplete(checks, t))
            && (forall i, j :: 0 <= i < j < |lock.targets| ==> lock.targets[i].symbol != lock.targets[j].symbol)
            && (forall a :: a in lock.artifacts ==> checks.relative(a.path) && a.digest.Sha256?)
            && (forall i, j :: 0 <= i < j < |lock.artifacts| ==> lock.artifacts[i].path != lock.artifacts[j].path)
  {
    hide ValidTarget, IsComplete;
    ValidParts(checks, lock);
    forall t
      ensures ValidTarget(checks, t) && DistinctKeys(t.attributes, LockKey) <==> IsComplete(checks, t)
    {
      TargetValidity(checks, t);
    }
    assert forall i, j :: 0 <= i < |lock.targets| && 0 <= j < |lock.targets| ==>
             (TargetSymbol(lock.targets[i]) == TargetSymbol(lock.targets[j]) <==>
              lock.targets[i].symbol == lock.targets[j].symbol);
    assert forall i, j :: 0 <= i < |lock.artifacts| && 0 <= j < |lock.artifacts| ==>
             (ArtifactPath(lock.artifacts[i]) == ArtifactPath(lock.artifacts[j]) <==>
              lock.artifacts[i].path == lock.artifacts[j].path);
  }
}
