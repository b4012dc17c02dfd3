/** Comparing lockfiles (internal/lockfile/diff.go). */
module LockDiffs {
  import opened Lockfiles
  import opened Orders
  import opened Policies

  datatype Classification =
    | Add | Remove | SignatureChange | PolicyChange | SpanNameChange | ContextChange | ErrorStrategyChange
    | AttributeChange | BackendChange | SourceChange | BuildChange | ArtifactChange

  /** The classification as it is written and ordered. */
  function Text(classification: Classification): string
  {
    match classification
    case Add => "ADD"
    case Remove => "REMOVE"
    case SignatureChange => "SIGNATURE"
    case PolicyChange => "POLICY"
    case SpanNameChange => "SPAN_NAME"
    case ContextChange => "CONTEXT"
    case ErrorStrategyChange => "ERROR_STRATEGY"
    case AttributeChange => "ATTRIBUTE"
    case BackendChange => "BACKEND"
    case SourceChange => "SOURCE"
    case BuildChange => "BUILD"
    case ArtifactChange => "ARTIFACT"
  }

  lemma TextIsInjective(a: Classification, b: Classification)
    requires Text(a) == Text(b)
    ensures a == b
  {
  }

  datatype Entry = Entry(classification: Classification, symbol: string, detail: string)

  function AddEntry(symbol: string): Entry { Entry(Add, symbol, "target added") }

  function RemoveEntry(symbol: string): Entry { Entry(Remove, symbol, "target removed") }

  // ------------------------------------------------------------------------- order of entries

  predicate EntryLess(a: Entry, b: Entry)
  {
    if a.symbol != b.symbol then Less(a.symbol, b.symbol) else Less(Text(a.classification), Text(b.classification))
  }

  predicate SameKey(a: Entry, b: Entry)
  {
    a.symbol == b.symbol && a.classification == b.classification
  }

  ghost predicate DistinctEntries(entries: seq<Entry>)
  {
    forall i, j :: 0 <= i < j < |entries| ==> !SameKey(entries[i], entries[j])
  }

  lemma EntryLessIsTotal(a: Entry, b: Entry)
    ensures EntryLess(a, b) || EntryLess(b, a) || SameKey(a, b)
    ensures !(EntryLess(a, b) && EntryLess(b, a)) && !(SameKey(a, b) && EntryLess(a, b))
  {
    LessIsTotal(a.symbol, b.symbol);
    LessIsTotal(Text(a.classification), Text(b.classification));
    if Text(a.classification) == Text(b.classification) {
      TextIsInjective(a.classification, b.classification);
    }
  }

  lemma EntryLessIsTransitive(a: Entry, b: Entry, c: Entry)
    requires EntryLess(a, b) && EntryLess(b, c)
    ensures EntryLess(a, c)
  {
    LessIsTotal(a.symbol, b.symbol);
    LessIsTotal(b.symbol, c.symbol);
    LessIsTotal(a.symbol, c.symbol);
    if a.symbol == b.symbol == c.symbol {
      LessIsTransitive(Text(a.classification), Text(b.classification), Text(c.classification));
    } else if a.symbol != b.symbol && b.symbol != c.symbol {
      LessIsTransitive(a.symbol, b.symbol, c.symbol);
    }
  }

  lemma EntryOrder()
    ensures IsOrder(EntryLess)
  {
    hide EntryLess;
    forall a, b
      ensures !(EntryLess(a, b) && EntryLess(b, a))
    {
      EntryLessIsTotal(a, b);
    }
    forall a, b, c | EntryLess(a, b) && EntryLess(b, c)
      ensures EntryLess(a, c)
    {
      EntryLessIsTransitive(a, b, c);
    }
    forall a, b, c | !EntryLess(b, a) && !EntryLess(c, b)
      ensures !EntryLess(c, a)
    {
      NotLessIsTransitive(a, b, c);
    }
  }

  lemma NotLessIsTransitive(a: Entry, b: Entry, c: Entry)
    requires !EntryLess(b, a) && !EntryLess(c, b)
    ensures !EntryLess(c, a)
  {
    hide EntryLess;
    if EntryLess(c, a) {
      EntryLessIsTotal(a, b);
      EntryLessIsTotal(b, c);
      if EntryLess(a, b) {
        EntryLessIsTransitive(c, a, b);
      } else if EntryLess(b, c) {
        EntryLessIsTransitive(b, c, a);
      } else {
        assert SameKey(a, b) && SameKey(b, c);
        EntryLessIsTotal(c, a);
      }
    }
  }

  // -------------------------------------------------------------------------- what is reported

  /** The comparisons of `metadataChanges` and `targetChanges`, in the order of the code. */
  const METADATA_CHECKS := [PolicyChange, BackendChange, BuildChange, ArtifactChange]

  const TARGET_CHECKS :=
    [SignatureChange, PolicyChange, SpanNameChange, ContextChange, ErrorStrategyChange, AttributeChange, SourceChange]

  predicate MetadataDiffers(previous: Lockfile, current: Lockfile, check: Classification)
  {
    match check
    case PolicyChange => previous.policyDigest != current.policyDigest
    case BackendChange => previous.backend != current.backend
    case BuildChange =>
      previous.goVersion != current.goVersion || previous.moduleGraphDigest != current.moduleGraphDigest
    case ArtifactChange => previous.artifacts != current.artifacts
    case _ => false
  }

  predicate TargetDiffers(before: LockTarget, target: LockTarget, check: Classification)
  {
    match check
    case SignatureChange => before.signatureDigest != target.signatureDigest
    case PolicyChange => before.sourceRule != target.sourceRule
    case SpanNameChange => before.spanName != target.spanName
    case ContextChange => before.context != target.context
    case ErrorStrategyChange => before.errors != target.errors
    case AttributeChange => before.attributes != target.attributes
    case SourceChange => before.location.file != target.location.file
    case _ => false
  }

  function MetadataEntry(check: Classification): Entry
  {
    Entry(check, "",
          match check
          case PolicyChange => "policy digest changed"
          case BackendChange => "backend identity or capabilities changed"
          case BuildChange => "Go toolchain or module graph changed"
          case _ => "generated artifact manifest changed")
  }

  function TargetEntry(symbol: string, check: Classification): Entry
  {
    Entry(check, symbol,
          match check
          case SignatureChange => "signature changed"
          case PolicyChange => "source rule changed"
          case SpanNameChange => "span name changed"
          case ContextChange => "context strategy changed"
          case ErrorStrategyChange => "error strategy changed"
          case AttributeChange => "attributes or safety acknowledgment changed"
          case _ => "source file changed")
  }

  function MetadataChangesOf(checks: seq<Classification>, previous: Lockfile, current: Lockfile): seq<Entry>
  {
    if |checks| == 0 then []
    else
      (if MetadataDiffers(previous, current, checks[0]) then [MetadataEntry(checks[0])] else []) +
      MetadataChangesOf(checks[1..], previous, current)
  }

  function TargetChangesOf(checks: seq<Classification>, before: LockTarget, target: LockTarget): seq<Entry>
  {
    if |checks| == 0 then []
    else
      (if TargetDiffers(before, target, checks[0]) then [TargetEntry(target.symbol, checks[0])] else []) +
      TargetChangesOf(checks[1..], before, target)
  }

  function MetadataChanges(previous: Lockfile, current: Lockfile): seq<Entry>
  {
    MetadataChangesOf(METADATA_CHECKS, previous, current)
  }

  function TargetChanges(before: LockTarget, target: LockTarget): seq<Entry>
  {
    TargetChangesOf(TARGET_CHECKS, before, target)
  }

  ghost predicate DistinctChecks(checks: seq<Classification>)
  {
    forall i, j :: 0 <= i < j < |checks| ==> checks[i] != checks[j]
  }

  lemma DistinctTail(checks: seq<Classification>)
    requires DistinctChecks(checks) && |checks| > 0
    ensures DistinctChecks(checks[1..]) && checks[0] !in checks[1..]
  {
  }

  lemma {:induction false} MetadataChangesContain(checks: seq<Classification>, previous: Lockfile, current: Lockfile)
    requires DistinctChecks(checks)
    ensures DistinctEntries(MetadataChangesOf(checks, previous, current))
    ensures forall e :: e in MetadataChangesOf(checks, previous, current) <==>
              e.classification in checks && MetadataDiffers(previous, current, e.classification) &&
              e == MetadataEntry(e.classification)
  {
    hide MetadataDiffers, DistinctChecks;
    if |checks| == 0 {
    } else {
      DistinctTail(checks);
      MetadataChangesContain(checks[1..], previous, current);
      assert checks == [checks[0]] + checks[1..];
      var rest := MetadataChangesOf(checks[1..], previous, current);
      assert forall i :: 0 <= i < |rest| ==> rest[i] in rest;
      hide MetadataEntry;
      EntryOfCheck("", checks[0]);
    }
  }

  lemma {:induction false} TargetChangesContain(checks: seq<Classification>, before: LockTarget, target: LockTarget)
    requires DistinctChecks(checks)
    ensures DistinctEntries(TargetChangesOf(checks, before, target))
    ensures forall e :: e in TargetChangesOf(checks, before, target) <==>
              e.classification in checks && TargetDiffers(before, target, e.classification) &&
              e == TargetEntry(target.symbol, e.classification)
  {
    hide TargetDiffers, DistinctChecks;
    if |checks| == 0 {
    } else {
      DistinctTail(checks);
      TargetChangesContain(checks[1..], before, target);
      assert checks == [checks[0]] + checks[1..];
      var rest := TargetChangesOf(checks[1..], before, target);
      assert forall i :: 0 <= i < |rest| ==> rest[i] in rest;
      hide TargetEntry;
      EntryOfCheck(target.symbol, checks[0]);
    }
  }

  lemma EntryOfCheck(symbol: string, check: Classification)
    ensures MetadataEntry(check).classification == check && MetadataEntry(check).symbol == ""
    ensures TargetEntry(symbol, check).classification == check && TargetEntry(symbol, check).symbol == symbol
  {
  }

  predicate Names(targets: seq<LockTarget>, symbol: string)
  {
    exists t :: t in targets && t.symbol == symbol
  }

  /** The entries a diff consists of, for lockfiles in canonical order. */
  ghost predicate Reported(previous: Lockfile, current: Lockfile, e: Entry)
  {
    || e in MetadataChanges(previous, current)
    || (exists t :: t in current.targets && !Names(previous.targets, t.symbol) && e == AddEntry(t.symbol))
    || (exists t :: t in previous.targets && !Names(current.targets, t.symbol) && e == RemoveEntry(t.symbol))
    || (exists before, t :: before in previous.targets && t in current.targets && before.symbol == t.symbol &&
                            e in TargetChanges(before, t))
  }

  ghost predicate IsDiff(previous: Lockfile, current: Lockfile, entries: seq<Entry>)
  {
    Ascending(entries, EntryLess) && forall e :: e in entries <==> Reported(Canonical(previous), Canonical(current), e)
  }

  lemma DiffIsUnique(previous: Lockfile, current: Lockfile, a: seq<Entry>, b: seq<Entry>)
    requires IsDiff(previous, current, a) && IsDiff(previous, current, b)
    ensures a == b
  {
    hide EntryLess, Reported, Ascending;
    EntryOrder();
    AscendingIsUnique(a, b, EntryLess);
  }

  // --------------------------------------------------------------------------------- the code

  lemma ChecksAreDistinct()
    ensures DistinctChecks(METADATA_CHECKS) && DistinctChecks(TARGET_CHECKS)
    ensures forall c :: c in METADATA_CHECKS <==>
              c.PolicyChange? || c.BackendChange? || c.BuildChange? || c.ArtifactChange?
    ensures forall c :: c in TARGET_CHECKS <==>
              || c.SignatureChange? || c.PolicyChange? || c.SpanNameChange? || c.ContextChange?
              || c.ErrorStrategyChange? || c.AttributeChange? || c.SourceChange?
  {
  }

  lemma ChangesAreDistinct(before: LockTarget, target: LockTarget)
    ensures DistinctEntries(TargetChanges(before, target))
    ensures forall e :: e in TargetChanges(before, target) ==> e.symbol == target.symbol
    ensures forall e :: e in TargetChanges(before, target) <==>
              TargetDiffers(before, target, e.classification) && e == TargetEntry(target.symbol, e.classification)
  {
    hide DistinctEntries, DistinctChecks, TargetChangesOf;
    ChecksAreDistinct();
    TargetChangesContain(TARGET_CHECKS, before, target);
  }

  lemma MetadataIsDistinct(previous: Lockfile, current: Lockfile)
    ensures DistinctEntries(MetadataChanges(previous, current))
    ensures forall e :: e in MetadataChanges(previous, current) ==> e.symbol == ""
    ensures forall e :: e in MetadataChanges(previous, current) <==>
              MetadataDiffers(previous, current, e.classification) && e == MetadataEntry(e.classification)
  {
    hide DistinctEntries, DistinctChecks, MetadataChangesOf;
    ChecksAreDistinct();
    MetadataChangesContain(METADATA_CHECKS, previous, current);
  }

  lemma DistinctAscends(r: seq<Entry>, entries: seq<Entry>)
    requires multiset(r) == multiset(entries) && NoInversion(r, EntryLess) && DistinctEntries(entries)
    ensures Ascending(r, EntryLess)
  {
    hide EntryLess;
    forall i, j | 0 <= i < j < |entries|
      ensures EntryLess(entries[i], entries[j]) || EntryLess(entries[j], entries[i])
    {
      EntryLessIsTotal(entries[i], entries[j]);
    }
    SortedAscends(r, entries, EntryLess);
  }

  lemma AppendDistinct(a: seq<Entry>, b: seq<Entry>)
    requires DistinctEntries(a) && DistinctEntries(b)
    requires forall x, y :: x in a && y in b ==> x.symbol != y.symbol
    ensures DistinctEntries(a + b)
  {
  }

  method TargetsBySymbol(targets: seq<LockTarget>) returns (remaining: map<string, LockTarget>)
    requires DistinctKeys(targets, TargetSymbol)
    ensures forall symbol :: symbol in remaining <==> Names(targets, symbol)
    ensures forall t :: t in targets ==> t.symbol in remaining && remaining[t.symbol] == t
    ensures forall symbol :: symbol in remaining ==> remaining[symbol] in targets && remaining[symbol].symbol == symbol
  {
    remaining := map[];
    for k := 0 to |targets|
      invariant forall i :: 0 <= i < k ==> targets[i].symbol in remaining && remaining[targets[i].symbol] == targets[i]
      invariant forall symbol :: symbol in remaining ==>
                  remaining[symbol] in targets[..k] && remaining[symbol].symbol == symbol
    {
      forall i | 0 <= i < k
        ensures targets[i].symbol != targets[k].symbol
      {
        assert TargetSymbol(targets[i]) != TargetSymbol(targets[k]);
      }
      assert targets[..k + 1] == targets[..k] + [targets[k]];
      remaining := remaining[targets[k].symbol := targets[k]];
    }
  }

  /** What the loop over the current targets appends for one of them. */
  function CurrentEntries(previous: map<string, LockTarget>, target: LockTarget): seq<Entry>
  {
    if target.symbol in previous then TargetChanges(previous[target.symbol], target) else [AddEntry(target.symbol)]
  }

  lemma CurrentEntriesAreDistinct(previous: map<string, LockTarget>, target: LockTarget)
    ensures DistinctEntries(CurrentEntries(previous, target))
    ensures forall e :: e in CurrentEntries(previous, target) ==> e.symbol == target.symbol
  {
    if target.symbol in previous {
      ChangesAreDistinct(previous[target.symbol], target);
    }
  }

  /** The entries after the first `k` current targets. */
  ghost predicate Compared(entries: seq<Entry>, start: seq<Entry>, previous: map<string, LockTarget>,
                           targets: seq<LockTarget>, k: nat)
    requires k <= |targets|
  {
    && DistinctEntries(entries)
    && forall e :: e in entries <==> e in start || exists i :: 0 <= i < k && e in CurrentEntries(previous, targets[i])
  }

  lemma CompareOne(entries: seq<Entry>, start: seq<Entry>, previous: map<string, LockTarget>,
                   targets: seq<LockTarget>, k: nat)
    requires k < |targets| && Compared(entries, start, previous, targets, k)
    requires forall e :: e in start ==> e.symbol == ""
    requires targets[k].symbol != "" && forall i :: 0 <= i < k ==> targets[i].symbol != targets[k].symbol
    ensures Compared(entries + CurrentEntries(previous, targets[k]), start, previous, targets, k + 1)
  {
    hide CurrentEntries, DistinctEntries;
    CurrentEntriesAreDistinct(previous, targets[k]);
    var added := CurrentEntries(previous, targets[k]);
    forall x, y | x in entries && y in added
      ensures x.symbol != y.symbol
    {
      if x !in start {
        var i :| 0 <= i < k && x in CurrentEntries(previous, targets[i]);
        CurrentEntriesAreDistinct(previous, targets[i]);
      }
    }
    AppendDistinct(entries, added);
  }

  /** The loop over current targets: it leaves in `old` the previous targets that are gone. */
  method CompareTargets(previous: map<string, LockTarget>, targets: seq<LockTarget>, start: seq<Entry>)
    returns (entries: seq<Entry>, remaining: map<string, LockTarget>)
    requires DistinctKeys(targets, TargetSymbol) && DistinctEntries(start)
    requires forall e :: e in start ==> e.symbol == ""
    requires forall t :: t in targets ==> t.symbol != ""
    ensures DistinctEntries(entries)
    ensures forall e :: e in entries <==> e in start || exists t :: t in targets && e in CurrentEntries(previous, t)
    ensures forall symbol :: symbol in remaining <==> symbol in previous && !Names(targets, symbol)
  {
    hide TargetChanges, DistinctEntries;
    entries, remaining := start, previous;
    assert Compared(entries, start, previous, targets, 0);
    for k := 0 to |targets|
      invariant Compared(entries, start, previous, targets, k)
      invariant forall symbol :: symbol in remaining <==>
                  symbol in previous && forall i :: 0 <= i < k ==> targets[i].symbol != symbol
      invariant forall symbol :: symbol in remaining ==> remaining[symbol] == previous[symbol]
    {
      hide Compared;
      var target := targets[k];
      assert target in targets;
      forall i | 0 <= i < k
        ensures targets[i].symbol != target.symbol
      {
        assert TargetSymbol(targets[i]) != TargetSymbol(targets[k]);
      }
      CompareOne(entries, start, previous, targets, k);
      if target.symbol !in remaining {
        entries := entries + [AddEntry(target.symbol)];
      } else {
        var before := remaining[target.symbol];
        remaining := remaining - {target.symbol};
        entries := entries + TargetChanges(before, target);
      }
    }
    ComparedAll(entries, start, previous, targets);
  }

  lemma ComparedAll(entries: seq<Entry>, start: seq<Entry>, previous: map<string, LockTarget>,
                    targets: seq<LockTarget>)
    requires Compared(entries, start, previous, targets, |targets|)
    ensures DistinctEntries(entries)
    ensures forall e :: e in entries <==> e in start || exists t :: t in targets && e in CurrentEntries(previous, t)
  {
  }

  /** The loop over the map of remaining targets, in whatever order the map yields them. */
  method ReportRemoved(symbols: set<string>, start: seq<Entry>) returns (entries: seq<Entry>)
    requires DistinctEntries(start) && forall e :: e in start ==> e.symbol !in symbols
    ensures DistinctEntries(entries)
    ensures forall e :: e in entries <==> e in start || exists symbol :: symbol in symbols && e == RemoveEntry(symbol)
  {
    entries := start;
    var rest := symbols;
    while rest != {}
      invariant rest <= symbols && DistinctEntries(entries)
      invariant forall e :: e in entries ==> e.symbol !in rest
      invariant forall e :: e in entries <==>
                  e in start || exists symbol :: symbol in symbols - rest && e == RemoveEntry(symbol)
      decreases rest
    {
      var symbol :| symbol in rest;
      AppendDistinct(entries, [RemoveEntry(symbol)]);
      rest := rest - {symbol};
      entries := entries + [RemoveEntry(symbol)];
    }
  }

  lemma ReportedByLoops(previous: Lockfile, current: Lockfile, remaining: map<string, LockTarget>, e: Entry)
    requires DistinctKeys(previous.targets, TargetSymbol)
    requires forall symbol :: symbol in remaining <==> Names(previous.targets, symbol)
    requires forall t :: t in previous.targets ==> t.symbol in remaining && remaining[t.symbol] == t
    requires forall symbol :: symbol in remaining ==>
               remaining[symbol] in previous.targets && remaining[symbol].symbol == symbol
    ensures Reported(previous, current, e) <==>
            || e in MetadataChanges(previous, current)
            || (exists t :: t in current.targets && e in CurrentEntries(remaining, t))
            || (exists symbol :: symbol in remaining && !Names(current.targets, symbol) && e == RemoveEntry(symbol))
  {
  }

  /** `Diff`: all reported entries and no others, in the one ascending order. */
  method Diff(previousLock: Lockfile, currentLock: Lockfile) returns (entries: seq<Entry>)
    requires UniqueLock(previousLock) && UniqueLock(currentLock)
    requires forall t :: t in previousLock.targets || t in currentLock.targets ==> t.symbol != ""
    ensures IsDiff(previousLock, currentLock, entries)
  {
    hide TargetChanges, MetadataChanges, Canonical, EntryLess, DistinctKeys, Reported;
    var previous := CanonicalizeLock(previousLock);
    var current := CanonicalizeLock(currentLock);
    CanonicalContents(previousLock);
    CanonicalContents(currentLock);
    MetadataIsDistinct(previous, current);
    KeepSymbols(previousLock);
    KeepSymbols(currentLock);
    var remaining := TargetsBySymbol(previous.targets);
    ghost var all := remaining;
    entries, remaining := CompareTargets(remaining, current.targets, MetadataChanges(previous, current));
    forall symbol | symbol in remaining
      ensures symbol != ""
    {
      assert all[symbol] in previous.targets && all[symbol].symbol == symbol;
    }
    forall e | e in entries
      ensures e.symbol !in remaining.Keys
    {
      if e !in MetadataChanges(previous, current) {
        var t :| t in current.targets && e in CurrentEntries(all, t);
        CurrentEntriesAreDistinct(all, t);
      }
    }
    entries := ReportRemoved(remaining.Keys, entries);
    forall e
      ensures e in entries <==> Reported(previous, current, e)
    {
      ReportedByLoops(previous, current, all, e);
    }
    ghost var unsorted := entries;
    EntryOrder();
    entries := SortByLess(entries, EntryLess);
    DistinctAscends(entries, unsorted);
    SameElements(entries, unsorted);
  }

  lemma KeepSymbols(lock: Lockfile)
    requires UniqueLock(lock) && forall t :: t in lock.targets ==> t.symbol != ""
    ensures forall t :: t in Canonical(lock).targets ==> t.symbol != ""
  {
    hide Canonical, CanonicalTarget, DistinctKeys;
    CanonicalContents(lock);
    forall t | t in Canonical(lock).targets
      ensures t.symbol != ""
    {
      var u :| u in lock.targets && CanonicalTarget(u) == t;
      KeepSymbol(u);
    }
  }

  // --------------------------------------------------------------------- an empty diff, exactly

  /** Equal except for line, column and the order of attributes. */
  ghost predicate SameTarget(a: LockTarget, b: LockTarget)
  {
    && a.location.file == b.location.file
    && multiset(a.attributes) == multiset(b.attributes)
    && a == b.(location := a.location, attributes := a.attributes)
  }

  /** Each of these targets has its equal among those. */
  ghost predicate Covers(these: seq<LockTarget>, those: seq<LockTarget>)
  {
    forall t :: t in these ==> exists u :: u in those && SameTarget(t, u)
  }

  /** Equal up to the order of targets, attributes and artifacts, and up to source lines and columns. */
  ghost predicate SameLock(a: Lockfile, b: Lockfile)
  {
    && multiset(a.artifacts) == multiset(b.artifacts)
    && Covers(a.targets, b.targets) && Covers(b.targets, a.targets)
    && a == b.(targets := a.targets, artifacts := a.artifacts)
  }

  lemma SortByIsInjective<T(!new)>(a: seq<T>, b: seq<T>, key: T -> string)
    requires DistinctKeys(a, key)
    ensures SortBy(a, key) == SortBy(b, key) <==> multiset(a) == multiset(b)
  {
    hide SortedBy, Less;
    if multiset(a) == multiset(b) {
      SortIgnoresOrder(a, b, key);
    }
    SortBySorts(a, key);
    SortBySorts(b, key);
  }

  lemma NoTargetChanges(before: LockTarget, target: LockTarget)
    ensures TargetChanges(before, target) == [] <==>
            && before.signatureDigest == target.signatureDigest && before.sourceRule == target.sourceRule
            && before.spanName == target.spanName && before.context == target.context
            && before.errors == target.errors && before.attributes == target.attributes
            && before.location.file == target.location.file
  {
    hide TargetChanges, DistinctEntries, TargetEntry, TargetDiffers;
    ChangesAreDistinct(before, target);
    SomeElement(TargetChanges(before, target));
    forall c: Classification
      ensures TargetEntry(target.symbol, c) in TargetChanges(before, target) <==> TargetDiffers(before, target, c)
    {
      EntryOfCheck(target.symbol, c);
    }
    NoTargetDiffers(before, target);
  }

  lemma NoMetadataChanges(previous: Lockfile, current: Lockfile)
    ensures MetadataChanges(previous, current) == [] <==>
            && previous.policyDigest == current.policyDigest && previous.backend == current.backend
            && previous.goVersion == current.goVersion && previous.moduleGraphDigest == current.moduleGraphDigest
            && previous.artifacts == current.artifacts
  {
    hide MetadataChanges, DistinctEntries, MetadataEntry, MetadataDiffers;
    MetadataIsDistinct(previous, current);
    SomeElement(MetadataChanges(previous, current));
    forall c: Classification
      ensures MetadataEntry(c) in MetadataChanges(previous, current) <==> MetadataDiffers(previous, current, c)
    {
      EntryOfCheck("", c);
    }
    NoMetadataDiffers(previous, current);
  }

  lemma ForAllChecks(p: Classification -> bool)
    ensures (forall c :: !p(c)) <==>
            && !p(Add) && !p(Remove) && !p(SignatureChange) && !p(PolicyChange) && !p(SpanNameChange)
            && !p(ContextChange) && !p(ErrorStrategyChange) && !p(AttributeChange) && !p(BackendChange)
            && !p(SourceChange) && !p(BuildChange) && !p(ArtifactChange)
  {
    if !exists c :: p(c) {
      assert !p(Add) && !p(Remove) && !p(SignatureChange) && !p(PolicyChange) && !p(SpanNameChange);
    } else {
      var c :| p(c);
      match c {
        case Add => case Remove => case SignatureChange => case PolicyChange => case SpanNameChange =>
        case ContextChange => case ErrorStrategyChange => case AttributeChange => case BackendChange =>
        case SourceChange => case BuildChange => case ArtifactChange =>
      }
    }
  }

  lemma NoTargetDiffers(before: LockTarget, target: LockTarget)
    ensures (forall c :: !TargetDiffers(before, target, c)) <==>
            && before.signatureDigest == target.signatureDigest && before.sourceRule == target.sourceRule
            && before.spanName == target.spanName && before.context == target.context
            && before.errors == target.errors && before.attributes == target.attributes
            && before.location.file == target.location.file
  {
    ForAllChecks(c => TargetDiffers(before, target, c));
  }

  lemma NoMetadataDiffers(previous: Lockfile, current: Lockfile)
    ensures (forall c :: !MetadataDiffers(previous, current, c)) <==>
            && previous.policyDigest == current.policyDigest && previous.backend == current.backend
            && previous.goVersion == current.goVersion && previous.moduleGraphDigest == current.moduleGraphDigest
            && previous.artifacts == current.artifacts
  {
    ForAllChecks(c => MetadataDiffers(previous, current, c));
  }

  lemma SameTargetHasNoChanges(a: LockTarget, b: LockTarget)
    requires DistinctKeys(a.attributes, LockKey) && a.symbol == b.symbol
    requires a.signatureDigest == Sha256(a.signature) && b.signatureDigest == Sha256(b.signature)
    ensures TargetChanges(CanonicalTarget(a), CanonicalTarget(b)) == [] <==> SameTarget(a, b)
  {
    hide SortBy, TargetDiffers, TargetChanges;
    SortByIsInjective(a.attributes, b.attributes, LockKey);
    NoTargetChanges(CanonicalTarget(a), CanonicalTarget(b));
  }

  lemma SameMetadata(checks: Checks, a: Lockfile, b: Lockfile)
    requires ValidLock(checks, a) && ValidLock(checks, b)
    ensures MetadataChanges(Canonical(a), Canonical(b)) == [] <==>
            multiset(a.artifacts) == multiset(b.artifacts) &&
            a == b.(targets := a.targets, artifacts := a.artifacts)
  {
    hide SortBy, CanonicalTargets, MetadataDiffers, MetadataChanges;
    SortByIsInjective(a.artifacts, b.artifacts, ArtifactPath);
    NoMetadataChanges(Canonical(a), Canonical(b));
  }

  lemma UniqueTarget(targets: seq<LockTarget>, a: LockTarget, b: LockTarget)
    requires DistinctKeys(targets, TargetSymbol) && a in targets && b in targets && a.symbol == b.symbol
    ensures a == b
  {
  }

  lemma PresenceIsReported(a: Lockfile, b: Lockfile, t: LockTarget)
    requires t in a.targets || t in b.targets
    ensures Names(b.targets, t.symbol) || Reported(a, b, RemoveEntry(t.symbol))
    ensures Names(a.targets, t.symbol) || Reported(a, b, AddEntry(t.symbol))
  {
  }

  lemma SameTargetIsSymmetric(a: LockTarget, b: LockTarget)
    requires SameTarget(a, b)
    ensures SameTarget(b, a)
  {
  }

  /** The targets of both lockfiles correspond iff no target is added, removed or changed. */
  lemma SameTargets(checks: Checks, a: Lockfile, b: Lockfile)
    requires ValidLock(checks, a) && ValidLock(checks, b)
    requires forall e :: Reported(Canonical(a), Canonical(b), e) ==> e in MetadataChanges(Canonical(a), Canonical(b))
    ensures Covers(a.targets, b.targets) && Covers(b.targets, a.targets)
  {
    hide MetadataChanges, TargetChanges, CanonicalTarget, Canonical, SameTarget, DistinctKeys;
    CanonicalContents(a);
    CanonicalContents(b);
    MetadataIsDistinct(Canonical(a), Canonical(b));
    forall t | t in a.targets
      ensures exists u :: u in b.targets && SameTarget(t, u)
    {
      assert CanonicalTarget(t) in Canonical(a).targets;
      KeepSymbol(t);
      PresenceIsReported(Canonical(a), Canonical(b), CanonicalTarget(t));
      var c :| c in Canonical(b).targets && c.symbol == t.symbol;
      var u :| u in b.targets && CanonicalTarget(u) == c;
      KeepSymbol(u);
      Unchanged(a, b, t, u);
    }
    forall u | u in b.targets
      ensures exists t :: t in a.targets && SameTarget(u, t)
    {
      assert CanonicalTarget(u) in Canonical(b).targets;
      KeepSymbol(u);
      PresenceIsReported(Canonical(a), Canonical(b), CanonicalTarget(u));
      var c :| c in Canonical(a).targets && c.symbol == u.symbol;
      var t :| t in a.targets && CanonicalTarget(t) == c;
      KeepSymbol(t);
      Unchanged(a, b, t, u);
      SameTargetIsSymmetric(t, u);
    }
  }

  lemma Unchanged(a: Lockfile, b: Lockfile, t: LockTarget, u: LockTarget)
    requires CanonicalTarget(t) in Canonical(a).targets && CanonicalTarget(u) in Canonical(b).targets
    requires t.symbol == u.symbol && t.symbol != "" && DistinctKeys(t.attributes, LockKey)
    requires t.signatureDigest == Sha256(t.signature) && u.signatureDigest == Sha256(u.signature)
    requires forall e :: Reported(Canonical(a), Canonical(b), e) ==> e in MetadataChanges(Canonical(a), Canonical(b))
    ensures SameTarget(t, u)
  {
    hide MetadataChanges, TargetChanges, Canonical, CanonicalTarget, SameTarget, DistinctKeys;
    KeepSymbol(t);
    KeepSymbol(u);
    MetadataIsDistinct(Canonical(a), Canonical(b));
    var changes := TargetChanges(CanonicalTarget(t), CanonicalTarget(u));
    ChangesAreDistinct(CanonicalTarget(t), CanonicalTarget(u));
    forall e | e in changes
      ensures Reported(Canonical(a), Canonical(b), e)
    {
    }
    SomeElement(changes);
    SameTargetHasNoChanges(t, u);
  }

  lemma NothingAdded(checks: Checks, a: Lockfile, b: Lockfile, t: LockTarget)
    requires ValidLock(checks, a) && ValidLock(checks, b)
    requires Covers(b.targets, a.targets)
    requires t in Canonical(b).targets
    ensures Names(Canonical(a).targets, t.symbol)
  {
    hide Canonical, CanonicalTarget, SameTarget, DistinctKeys, ValidTarget;
    CanonicalContents(a);
    CanonicalContents(b);
    var u :| u in b.targets && CanonicalTarget(u) == t;
    var s :| s in a.targets && SameTarget(u, s);
    SameSymbol(u, s);
    assert CanonicalTarget(s) in Canonical(a).targets;
  }

  lemma NothingChanged(checks: Checks, a: Lockfile, b: Lockfile, before: LockTarget, t: LockTarget)
    requires ValidLock(checks, a) && ValidLock(checks, b)
    requires Covers(a.targets, b.targets)
    requires before in Canonical(a).targets && t in Canonical(b).targets && before.symbol == t.symbol
    ensures TargetChanges(before, t) == []
  {
    hide Canonical, CanonicalTarget, SameTarget, DistinctKeys, TargetChanges;
    CanonicalContents(a);
    CanonicalContents(b);
    var s :| s in a.targets && CanonicalTarget(s) == before;
    var u :| u in b.targets && CanonicalTarget(u) == t;
    KeepSymbol(s);
    KeepSymbol(u);
    var w :| w in b.targets && SameTarget(s, w);
    SameSymbol(s, w);
    UniqueTarget(b.targets, u, w);
    assert ValidTarget(checks, s) && ValidTarget(checks, u);
    SameTargetHasNoChanges(s, u);
  }

  lemma NothingReported(checks: Checks, a: Lockfile, b: Lockfile)
    requires ValidLock(checks, a) && ValidLock(checks, b) && SameLock(a, b)
    ensures forall e :: !Reported(Canonical(a), Canonical(b), e)
  {
    hide MetadataChanges, TargetChanges, Canonical, SameTarget, DistinctKeys, ValidLock, Names;
    SameMetadata(checks, a, b);
    forall t | t in Canonical(b).targets
      ensures Names(Canonical(a).targets, t.symbol)
    {
      NothingAdded(checks, a, b, t);
    }
    forall t | t in Canonical(a).targets
      ensures Names(Canonical(b).targets, t.symbol)
    {
      NothingAdded(checks, b, a, t);
    }
    forall before, t | before in Canonical(a).targets && t in Canonical(b).targets && before.symbol == t.symbol
      ensures TargetChanges(before, t) == []
    {
      NothingChanged(checks, a, b, before, t);
    }
  }

  lemma SameSymbol(a: LockTarget, b: LockTarget)
    requires SameTarget(a, b)
    ensures a.symbol == b.symbol && CanonicalTarget(a).symbol == CanonicalTarget(b).symbol
  {
  }

  /** The diff of valid lockfiles is empty exactly if they differ in nothing but order, lines and columns. */
  lemma EmptyDiffMeaning(checks: Checks, a: Lockfile, b: Lockfile, entries: seq<Entry>)
    requires ValidLock(checks, a) && ValidLock(checks, b) && IsDiff(a, b, entries)
    ensures entries == [] <==> SameLock(a, b)
  {
    hide MetadataChanges, Canonical, Reported, SameTarget, DistinctKeys, EntryLess;
    if entries == [] {
      assert forall e :: e !in entries;
      SameTargets(checks, a, b);
      if MetadataChanges(Canonical(a), Canonical(b)) != [] {
        var e := MetadataChanges(Canonical(a), Canonical(b))[0];
        MetadataIsReported(Canonical(a), Canonical(b), e);
      }
      SameMetadata(checks, a, b);
    }
    if SameLock(a, b) {
      NothingReported(checks, a, b);
      SomeElement(entries);
    }
  }

  lemma MetadataIsReported(a: Lockfile, b: Lockfile, e: Entry)
    requires e in MetadataChanges(a, b)
    ensures Reported(a, b, e)
  {
  }

  // --------------------------------------------------------------------------- swapped inputs

  /** What swapping the compared lockfiles does to an entry. */
  function Mirror(e: Entry): Entry
  {
    if e == AddEntry(e.symbol) then RemoveEntry(e.symbol)
    else if e == RemoveEntry(e.symbol) then AddEntry(e.symbol)
    else e
  }

  lemma MirrorChanges(before: LockTarget, t: LockTarget, e: Entry)
    requires before.symbol == t.symbol && e in TargetChanges(before, t)
    ensures e in TargetChanges(t, before) && Mirror(e) == e
  {
    hide TargetChanges, DistinctEntries;
    ChangesAreDistinct(before, t);
    ChangesAreDistinct(t, before);
  }

  lemma MirrorMetadata(a: Lockfile, b: Lockfile, e: Entry)
    requires e in MetadataChanges(a, b)
    ensures e in MetadataChanges(b, a) && Mirror(e) == e
  {
    hide MetadataChanges, DistinctEntries;
    MetadataIsDistinct(a, b);
    MetadataIsDistinct(b, a);
  }

  lemma MirrorOneWay(a: Lockfile, b: Lockfile, e: Entry)
    requires Reported(a, b, e)
    ensures Reported(b, a, Mirror(e))
  {
    hide TargetChanges, MetadataChanges;
    if e in MetadataChanges(a, b) {
      MirrorMetadata(a, b, e);
    } else if before, t :| before in a.targets && t in b.targets && before.symbol == t.symbol &&
                           e in TargetChanges(before, t) {
      MirrorChanges(before, t, e);
    }
  }

  lemma MirrorReported(a: Lockfile, b: Lockfile, e: Entry)
    ensures Reported(a, b, e) <==> Reported(b, a, Mirror(e))
  {
    hide Reported;
    assert Mirror(Mirror(e)) == e;
    if Reported(a, b, e) {
      MirrorOneWay(a, b, e);
    }
    if Reported(b, a, Mirror(e)) {
      MirrorOneWay(b, a, Mirror(e));
    }
  }

  /** An added or removed target has no other entry, so mirroring keeps entries in order. */
  lemma MirrorKeepsOrder(a: Lockfile, b: Lockfile, x: Entry, y: Entry)
    requires forall t :: t in a.targets || t in b.targets ==> t.symbol != ""
    requires Reported(a, b, x) && Reported(a, b, y) && EntryLess(x, y)
    ensures EntryLess(Mirror(x), Mirror(y))
  {
    hide TargetChanges, MetadataChanges;
    if x.symbol == y.symbol {
      EntryLessIsTotal(x, y);
      SoleEntry(a, b, x, y);
      SoleEntry(a, b, y, x);
    }
  }

  lemma SoleEntry(a: Lockfile, b: Lockfile, x: Entry, y: Entry)
    requires forall t :: t in a.targets || t in b.targets ==> t.symbol != ""
    requires Reported(a, b, x) && Reported(a, b, y) && x.symbol == y.symbol && !SameKey(x, y)
    ensures Mirror(x) == x
  {
    hide TargetChanges, MetadataChanges;
    MetadataIsDistinct(a, b);
    forall before, t | before in a.targets && t in b.targets && before.symbol == t.symbol &&
                       y in TargetChanges(before, t)
      ensures Names(a.targets, y.symbol) && Names(b.targets, y.symbol)
    {
      ChangesAreDistinct(before, t);
    }
    if x in MetadataChanges(a, b) {
      MirrorMetadata(a, b, x);
    } else if before, t :| before in a.targets && t in b.targets && before.symbol == t.symbol &&
                           x in TargetChanges(before, t) {
      MirrorChanges(before, t, x);
    }
  }

  /** Swapping the inputs exchanges additions and removals and leaves every other entry in place. */
  lemma SwappedDiff(a: Lockfile, b: Lockfile, entries: seq<Entry>, swapped: seq<Entry>)
    requires UniqueLock(a) && UniqueLock(b)
    requires forall t :: t in a.targets || t in b.targets ==> t.symbol != ""
    requires IsDiff(a, b, entries) && IsDiff(b, a, swapped)
    ensures |swapped| == |entries|
    ensures forall i :: 0 <= i < |entries| ==> swapped[i] == Mirror(entries[i])
  {
    hide Reported, EntryLess, Canonical, Mirror, DistinctKeys;
    KeepSymbols(a);
    KeepSymbols(b);
    var mirrored := seq(|entries|, i requires 0 <= i < |entries| => Mirror(entries[i]));
    forall i, j | 0 <= i < j < |mirrored|
      ensures EntryLess(mirrored[i], mirrored[j])
    {
      assert entries[i] in entries && entries[j] in entries;
      MirrorKeepsOrder(Canonical(a), Canonical(b), entries[i], entries[j]);
    }
    forall e
      ensures e in mirrored <==> e in swapped
    {
      MirrorTwice(e);
      MirrorReported(Canonical(a), Canonical(b), Mirror(e));
      if e in mirrored {
        var i :| 0 <= i < |mirrored| && mirrored[i] == e;
        assert entries[i] in entries;
        MirrorTwice(entries[i]);
      }
      if e in swapped {
        var i :| 0 <= i < |entries| && entries[i] == Mirror(e);
        assert mirrored[i] == e;
      }
    }
    EntryOrder();
    AscendingIsUnique(mirrored, swapped, EntryLess);
  }

  lemma MirrorTwice(e: Entry)
    ensures Mirror(Mirror(e)) == e
  {
  }
}
