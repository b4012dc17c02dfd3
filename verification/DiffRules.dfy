module DiffRules {
  // What each entry of a lockfile diff tells (internal/lockfile/diff.go).

  import opened LockDiffs
  import opened Lockfiles
  import opened Orders
  import opened Policies

  // ------------------------------------------------------------------------ the specification

  /** What is told of the lockfiles themselves; the artifacts are compared without their order. */
  ghost predicate MetadataTells(before: Lockfile, after: Lockfile, e: Entry)
  {
    && e.symbol == ""
    && match e.classification
       case PolicyChange => e.detail == "policy digest changed" && before.policyDigest != after.policyDigest
       case BackendChange => e.detail == "backend identity or capabilities changed" && before.backend != after.backend
       case BuildChange =>
         && e.detail == "Go toolchain or module graph changed"
         && (before.goVersion != after.goVersion || before.moduleGraphDigest != after.moduleGraphDigest)
       case ArtifactChange =>
         e.detail == "generated artifact manifest changed" && multiset(before.artifacts) != multiset(after.artifacts)
       case _ => false
  }

  /** What is told of one target; the attributes are compared without their order. */
  ghost predicate TargetTells(before: LockTarget, after: LockTarget, e: Entry)
  {
    && e.symbol == after.symbol
    && match e.classification
       case SignatureChange => e.detail == "signature changed" && before.signatureDigest != after.signatureDigest
       case PolicyChange => e.detail == "source rule changed" && before.sourceRule != after.sourceRule
       case SpanNameChange => e.detail == "span name changed" && before.spanName != after.spanName
       case ContextChange => e.detail == "context strategy changed" && before.context != after.context
       case ErrorStrategyChange => e.detail == "error strategy changed" && before.errors != after.errors
       case AttributeChange =>
         && e.detail == "attributes or safety acknowledgment changed"
         && multiset(before.attributes) != multiset(after.attributes)
       case SourceChange => e.detail == "source file changed" && before.location.file != after.location.file
       case _ => false
  }

  ghost predicate Has(lock: Lockfile, symbol: string)
  {
    exists t :: t in lock.targets && t.symbol == symbol
  }

  ghost predicate Tells(before: Lockfile, after: Lockfile, e: Entry)
  {
    || MetadataTells(before, after, e)
    || (e == Entry(Add, e.symbol, "target added") && Has(after, e.symbol) && !Has(before, e.symbol))
    || (e == Entry(Remove, e.symbol, "target removed") && Has(before, e.symbol) && !Has(after, e.symbol))
    || exists t, u :: t in before.targets && u in after.targets && t.symbol == u.symbol && TargetTells(t, u, e)
  }

  // ------------------------------------------------------------------------------- its parts

  lemma SortsDiffer<T(!new)>(a: seq<T>, b: seq<T>, key: T -> string)
    requires DistinctKeys(a, key)
    ensures SortBy(a, key) != SortBy(b, key) <==> multiset(a) != multiset(b)
  {
    hide SortBy, DistinctKeys;
    SortByIsInjective(a, b, key);
  }

  lemma MetadataMeaning(before: Lockfile, after: Lockfile, e: Entry)
    requires UniqueLock(before)
    ensures e in MetadataChanges(Canonical(before), Canonical(after)) <==> MetadataTells(before, after, e)
  {
    hide SortBy, DistinctKeys, MetadataChanges, DistinctEntries, CanonicalTargets;
    MetadataIsDistinct(Canonical(before), Canonical(after));
    SortsDiffer(before.artifacts, after.artifacts, ArtifactPath);
  }

  lemma TargetMeaning(before: LockTarget, after: LockTarget, e: Entry)
    requires DistinctKeys(before.attributes, LockKey)
    ensures e in TargetChanges(CanonicalTarget(before), CanonicalTarget(after)) <==> TargetTells(before, after, e)
  {
    hide SortBy, DistinctKeys, TargetChanges, DistinctEntries;
    ChangesAreDistinct(CanonicalTarget(before), CanonicalTarget(after));
    SortsDiffer(before.attributes, after.attributes, LockKey);
  }

  lemma NamesMeaning(lock: Lockfile, symbol: string)
    requires UniqueLock(lock)
    ensures Names(Canonical(lock).targets, symbol) <==> Has(lock, symbol)
  {
    hide Canonical, CanonicalTarget, UniqueLock;
    CanonicalContents(lock);
    if t :| t in lock.targets && t.symbol == symbol {
      KeepSymbol(t);
      assert CanonicalTarget(t) in Canonical(lock).targets;
    }
    if t :| t in Canonical(lock).targets && t.symbol == symbol {
      var u :| u in lock.targets && CanonicalTarget(u) == t;
      KeepSymbol(u);
    }
  }

  lemma PairsMeaning(before: Lockfile, after: Lockfile, e: Entry)
    requires UniqueLock(before) && UniqueLock(after)
    ensures (exists t, u :: t in Canonical(before).targets && u in Canonical(after).targets && t.symbol == u.symbol &&
                            e in TargetChanges(t, u)) <==>
            (exists t, u :: t in before.targets && u in after.targets && t.symbol == u.symbol && TargetTells(t, u, e))
  {
    hide Canonical, CanonicalTarget, TargetChanges, TargetTells, DistinctKeys;
    CanonicalContents(before);
    CanonicalContents(after);
    if t, u :| t in before.targets && u in after.targets && t.symbol == u.symbol && TargetTells(t, u, e) {
      KeepSymbol(t);
      KeepSymbol(u);
      TargetMeaning(t, u, e);
      assert CanonicalTarget(t) in Canonical(before).targets && CanonicalTarget(u) in Canonical(after).targets;
    }
    if t', u' :| t' in Canonical(before).targets && u' in Canonical(after).targets && t'.symbol == u'.symbol &&
                 e in TargetChanges(t', u') {
      var t :| t in before.targets && CanonicalTarget(t) == t';
      var u :| u in after.targets && CanonicalTarget(u) == u';
      KeepSymbol(t);
      KeepSymbol(u);
      TargetMeaning(t, u, e);
    }
  }

  lemma PresenceMeaning(these: Lockfile, those: Lockfile, symbol: string)
    ensures (exists t :: t in these.targets && !Names(those.targets, t.symbol) && t.symbol == symbol) <==>
            Names(these.targets, symbol) && !Names(those.targets, symbol)
  {
  }

  // ------------------------------------------------------------------------------ main results

  /** A diff has exactly the entries that tell a difference, in the order of symbol and classification. */
  lemma DiffMeaning(before: Lockfile, after: Lockfile, entries: seq<Entry>, e: Entry)
    requires UniqueLock(before) && UniqueLock(after) && IsDiff(before, after, entries)
    ensures e in entries <==> Tells(before, after, e)
  {
    hide Canonical, MetadataChanges, TargetChanges, UniqueLock, MetadataTells, TargetTells, Names, Has, EntryLess,
         Ascending;
    MetadataMeaning(before, after, e);
    PairsMeaning(before, after, e);
    NamesMeaning(before, e.symbol);
    NamesMeaning(after, e.symbol);
    PresenceMeaning(Canonical(before), Canonical(after), e.symbol);
    PresenceMeaning(Canonical(after), Canonical(before), e.symbol);
  }

  /** Editing one target, but not its symbol, yields exactly the entries of the fields that differ. */
  lemma EditMeaning(before: Lockfile, i: nat, target: LockTarget, entries: seq<Entry>, e: Entry)
    requires i < |before.targets| && target.symbol == before.targets[i].symbol
    requires DistinctKeys(target.attributes, LockKey) && UniqueLock(before)
    requires IsDiff(before, before.(targets := before.targets[i := target]), entries)
    ensures e in entries <==> TargetTells(before.targets[i], target, e)
  {
    hide IsDiff, TargetTells;
    var after := before.(targets := before.targets[i := target]);
    EditedIsUnique(before, i, target);
    DiffMeaning(before, after, entries, e);
    hide UniqueLock;
    EditedTargets(before, i, target);
    OnlyEdited(before, i, target, e);
    assert before.targets[i] in before.targets && after.targets[i] in after.targets;
    NothingTold(before, after, e);
  }

  lemma EditedIsUnique(before: Lockfile, i: nat, target: LockTarget)
    requires i < |before.targets| && target.symbol == before.targets[i].symbol
    requires DistinctKeys(target.attributes, LockKey) && UniqueLock(before)
    ensures UniqueLock(before.(targets := before.targets[i := target]))
  {
    var after := before.targets[i := target];
    assert forall j :: 0 <= j < |after| ==> TargetSymbol(after[j]) == TargetSymbol(before.targets[j]);
  }

  lemma EditedTargets(before: Lockfile, i: nat, target: LockTarget)
    requires i < |before.targets| && target.symbol == before.targets[i].symbol
    ensures forall symbol :: Has(before.(targets := before.targets[i := target]), symbol) <==> Has(before, symbol)
  {
    var after := before.targets[i := target];
    assert forall j :: 0 <= j < |after| ==> after[j].symbol == before.targets[j].symbol;
    assert forall j :: 0 <= j < |after| ==> after[j] in after && before.targets[j] in before.targets;
  }

  lemma OnlyEdited(before: Lockfile, i: nat, target: LockTarget, e: Entry)
    requires i < |before.targets| && target.symbol == before.targets[i].symbol
    requires DistinctKeys(before.targets, TargetSymbol)
    ensures forall t, u :: t in before.targets && u in before.targets[i := target] && t.symbol == u.symbol ==>
              TargetTells(t, u, e) ==> t == before.targets[i] && u == target
  {
    hide TargetTells;
    var after := before.targets[i := target];
    forall t, u | t in before.targets && u in after && t.symbol == u.symbol && TargetTells(t, u, e)
      ensures t == before.targets[i] && u == target
    {
      var j :| 0 <= j < |before.targets| && before.targets[j] == t;
      var k :| 0 <= k < |after| && after[k] == u;
      assert TargetSymbol(before.targets[j]) == TargetSymbol(before.targets[k]);
      SameTellsNothing(t, e);
    }
  }

  lemma SameTellsNothing(t: LockTarget, e: Entry)
    ensures !TargetTells(t, t, e)
  {
  }

  lemma NothingTold(before: Lockfile, after: Lockfile, e: Entry)
    requires before == after.(targets := before.targets)
    ensures !MetadataTells(before, after, e)
  {
  }

  /** For instance, renaming the span of a target, and nothing else, yields one entry that says so. */
  lemma RenamedSpan(before: Lockfile, i: nat, name: string, entries: seq<Entry>)
    requires i < |before.targets| && UniqueLock(before) && name != before.targets[i].spanName
    requires IsDiff(before, before.(targets := before.targets[i := before.targets[i].(spanName := name)]), entries)
    ensures entries == [Entry(SpanNameChange, before.targets[i].symbol, "span name changed")]
  {
    hide IsDiff;
    var target := before.targets[i].(spanName := name);
    var only := Entry(SpanNameChange, target.symbol, "span name changed");
    assert before.targets[i] in before.targets;
    forall e
      ensures e in entries <==> e == only
    {
      EditMeaning(before, i, target, entries, e);
    }
    hide UniqueLock;
    DiffIsStrict(before, before.(targets := before.targets[i := target]), entries);
    OneElement(entries, only);
  }

  lemma DiffIsStrict(before: Lockfile, after: Lockfile, entries: seq<Entry>)
    requires IsDiff(before, after, entries)
    ensures forall j, k :: 0 <= j < k < |entries| ==> entries[j] != entries[k]
  {
    hide EntryLess, Reported, IsOrder;
    forall j, k | 0 <= j < k < |entries|
      ensures entries[j] != entries[k]
    {
      EntryLessIsTotal(entries[j], entries[k]);
    }
  }

  lemma OneElement(entries: seq<Entry>, only: Entry)
    requires forall e :: e in entries <==> e == only
    ensures entries == [only] || exists j, k :: 0 <= j < k < |entries| && entries[j] == entries[k]
  {
    assert only in entries;
    if |entries| > 1 {
      assert entries[0] in entries && entries[1] in entries;
    }
  }

  // ----------------------------------------------------------------------------------- order

  /** The classifications in the order in which they are listed. */
  const IN_ORDER :=
    [Add, ArtifactChange, AttributeChange, BackendChange, BuildChange, ContextChange, ErrorStrategyChange,
     PolicyChange, Remove, SignatureChange, SourceChange, SpanNameChange]

  lemma NextInOrder(i: nat)
    requires i + 1 < |IN_ORDER|
    ensures Less(Text(IN_ORDER[i]), Text(IN_ORDER[i + 1]))
  {
    if i < 6 {
      NextInFirstHalf(i);
    } else {
      NextInSecondHalf(i);
    }
  }

  lemma NextInFirstHalf(i: nat)
    requires i < 6
    ensures Less(Text(IN_ORDER[i]), Text(IN_ORDER[i + 1]))
  {
    var a, b := Text(IN_ORDER[i]), Text(IN_ORDER[i + 1]);
    if a[0] == b[0] {
      assert a[1..][0] != b[1..][0];
    }
  }

  lemma NextInSecondHalf(i: nat)
    requires 6 <= i < 11
    ensures Less(Text(IN_ORDER[i]), Text(IN_ORDER[i + 1]))
  {
    var a, b := Text(IN_ORDER[i]), Text(IN_ORDER[i + 1]);
    if a[0] == b[0] {
      assert a[1..][0] != b[1..][0];
    }
  }

  lemma {:induction false} LaterInOrder(i: nat, j: nat)
    requires i < j < |IN_ORDER|
    ensures Less(Text(IN_ORDER[i]), Text(IN_ORDER[j]))
    decreases j
  {
    hide Less, Text;
    if j == i + 1 {
      NextInOrder(i);
    } else {
      LaterInOrder(i, j - 1);
      NextInOrder(j - 1);
      LessIsTransitive(Text(IN_ORDER[i]), Text(IN_ORDER[j - 1]), Text(IN_ORDER[j]));
    }
  }

  /** Entries come by symbol, and those of one symbol in the order of their classifications. */
  lemma EntriesInOrder(before: Lockfile, after: Lockfile, entries: seq<Entry>, j: nat, k: nat, x: nat, y: nat)
    requires IsDiff(before, after, entries) && j < k < |entries|
    requires x < |IN_ORDER| && y < |IN_ORDER|
    requires IN_ORDER[x] == entries[j].classification && IN_ORDER[y] == entries[k].classification
    ensures Less(entries[j].symbol, entries[k].symbol) || (entries[j].symbol == entries[k].symbol && x < y)
  {
    hide Less, Text, Reported;
    assert EntryLess(entries[j], entries[k]);
    if entries[j].symbol == entries[k].symbol && y < x {
      LaterInOrder(y, x);
    }
    EntryLessIsTotal(entries[j], entries[k]);
  }
}
