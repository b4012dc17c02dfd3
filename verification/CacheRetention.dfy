/**
 Which cache entries a pruning pass removes (internal/discovery/cache_retention.go).
 */
module CacheRetention {
  import opened Orders

  const MAXIMUM_ANALYSIS_CACHE_ENTRIES := 64
  const MAXIMUM_ANALYSIS_CACHE_BYTES := 268435456
  const MAXIMUM_CACHE_ENTRY_BYTES := 67108864

  datatype RetentionEntry = RetentionEntry(name: string, size: nat, modified: int)

  function EntryName(entry: RetentionEntry): string { entry.name }

  /** Oldest first; entries of the same age by name. */
  predicate Older(a: RetentionEntry, b: RetentionEntry)
  {
    a.modified < b.modified || (a.modified == b.modified && Less(a.name, b.name))
  }

  lemma OlderIsOrder()
    ensures IsOrder(Older)
  {
    hide Less;
    forall a, b
      ensures !(Older(a, b) && Older(b, a))
    {
      LessIsTotal(a.name, b.name);
    }
    forall a, b, c | Older(a, b) && Older(b, c)
      ensures Older(a, c)
    {
      if Less(a.name, b.name) && Less(b.name, c.name) {
        LessIsTransitive(a.name, b.name, c.name);
      }
    }
    forall a, b, c | !Older(b, a) && !Older(c, b)
      ensures !Older(c, a)
    {
      LessIsTotal(a.name, b.name);
      LessIsTotal(b.name, c.name);
      if Less(a.name, b.name) && Less(b.name, c.name) {
        LessIsTransitive(a.name, b.name, c.name);
      }
      LessIsTotal(a.name, c.name);
    }
  }

  function Sum(entries: seq<RetentionEntry>): nat
  {
    if |entries| == 0 then 0 else entries[0].size + Sum(entries[1..])
  }

  lemma {:induction false} SumOfConcat(a: seq<RetentionEntry>, b: seq<RetentionEntry>)
    ensures Sum(a + b) == Sum(a) + Sum(b)
  {
    if |a| == 0 {
      assert a + b == b;
    } else {
      SumOfConcat(a[1..], b);
      assert (a + b)[1..] == a[1..] + b;
    }
  }

  /** The entries of one name, in order. */
  function Kept(entries: seq<RetentionEntry>, keep: string): seq<RetentionEntry>
  {
    if |entries| == 0 then []
    else
      Kept(entries[..|entries| - 1], keep) +
      (if entries[|entries| - 1].name == keep then [entries[|entries| - 1]] else [])
  }

  /** What is left after a pass over the first `p` entries that spares the kept name. */
  function Remaining(entries: seq<RetentionEntry>, keep: string, p: nat): seq<RetentionEntry>
    requires p <= |entries|
  {
    Kept(entries[..p], keep) + entries[p..]
  }

  lemma RemainingStep(entries: seq<RetentionEntry>, keep: string, p: nat)
    requires p < |entries|
    ensures var now, next := Remaining(entries, keep, p), Remaining(entries, keep, p + 1);
            if entries[p].name == keep then next == now
            else |next| == |now| - 1 && Sum(next) == Sum(now) - entries[p].size
  {
    var kept := Kept(entries[..p], keep);
    assert entries[..p + 1][..p] == entries[..p];
    assert entries[p..] == [entries[p]] + entries[p + 1..];
    if entries[p].name == keep {
      assert kept + entries[p..] == kept + [entries[p]] + entries[p + 1..];
    } else {
      SumOfConcat(kept, entries[p..]);
      SumOfConcat(kept, entries[p + 1..]);
      assert entries[p..][1..] == entries[p + 1..];
      assert Kept(entries[..p + 1], keep) == kept;
    }
  }

  lemma {:induction false} KeptContains(entries: seq<RetentionEntry>, keep: string, e: RetentionEntry)
    ensures e in Kept(entries, keep) <==> e in entries && e.name == keep
  {
    if |entries| == 0 {
    } else {
      KeptContains(entries[..|entries| - 1], keep, e);
      assert entries == entries[..|entries| - 1] + [entries[|entries| - 1]];
    }
  }

  lemma {:induction false} AtMostOneKept(entries: seq<RetentionEntry>, keep: string)
    requires DistinctKeys(entries, EntryName)
    requires forall e :: e in entries ==> e.size <= MAXIMUM_CACHE_ENTRY_BYTES
    ensures |Kept(entries, keep)| <= 1 && Sum(Kept(entries, keep)) <= MAXIMUM_CACHE_ENTRY_BYTES
  {
    if |entries| == 0 {
    } else {
      var front, last := entries[..|entries| - 1], entries[|entries| - 1];
      assert last in entries;
      AtMostOneKept(front, keep);
      if last.name == keep {
        forall e
          ensures e !in Kept(front, keep)
        {
          KeptContains(front, keep, e);
          NoEarlierName(entries, e);
        }
        SomeElement(Kept(front, keep));
      }
    }
  }

  lemma NoEarlierName(entries: seq<RetentionEntry>, e: RetentionEntry)
    requires DistinctKeys(entries, EntryName) && |entries| > 0
    ensures e in entries[..|entries| - 1] ==> e.name != entries[|entries| - 1].name
  {
  }

  predicate Within(entries: seq<RetentionEntry>, maximumEntries: int, maximumBytes: int)
  {
    |entries| <= maximumEntries && Sum(entries) <= maximumBytes
  }

  /** A pass reaches exactly `p` entries if nothing before was within the limits. */
  ghost predicate Needed(entries: seq<RetentionEntry>, keep: string, p: nat, maximumEntries: int, maximumBytes: int)
  {
    p <= |entries| &&
    forall q: nat :: q < p ==> !Within(Remaining(entries, keep, q), maximumEntries, maximumBytes)
  }

  /** The pass is over: the limits hold or every entry was considered. */
  ghost predicate Enough(entries: seq<RetentionEntry>, keep: string, p: nat, maximumEntries: int, maximumBytes: int)
    requires p <= |entries|
  {
    p == |entries| || Within(Remaining(entries, keep, p), maximumEntries, maximumBytes)
  }

  /** There is only one point at which a pass can stop. */
  lemma StopIsUnique(entries: seq<RetentionEntry>, keep: string, p: nat, q: nat, maximumEntries: int, maximumBytes: int)
    requires Needed(entries, keep, p, maximumEntries, maximumBytes)
    requires Needed(entries, keep, q, maximumEntries, maximumBytes)
    requires Enough(entries, keep, p, maximumEntries, maximumBytes)
    requires Enough(entries, keep, q, maximumEntries, maximumBytes)
    ensures p == q
  {
  }

  /** With the constants of the repository, a finished pass always ends within both limits. */
  lemma FinishedWithinLimits(entries: seq<RetentionEntry>, keep: string, p: nat)
    requires DistinctKeys(entries, EntryName)
    requires forall e :: e in entries ==> e.size <= MAXIMUM_CACHE_ENTRY_BYTES
    requires p <= |entries|
    requires Enough(entries, keep, p, MAXIMUM_ANALYSIS_CACHE_ENTRIES, MAXIMUM_ANALYSIS_CACHE_BYTES)
    ensures Within(Remaining(entries, keep, p), MAXIMUM_ANALYSIS_CACHE_ENTRIES, MAXIMUM_ANALYSIS_CACHE_BYTES)
  {
    if p == |entries| {
      AtMostOneKept(entries, keep);
      assert entries[..p] == entries && entries[p..] == [];
      SumOfConcat(Kept(entries, keep), []);
    }
  }

  // ------------------------------------------------------------------- sums of permutations

  lemma {:induction false} SameSum(a: seq<RetentionEntry>, b: seq<RetentionEntry>)
    requires DistinctKeys(a, EntryName) && DistinctKeys(b, EntryName)
    requires forall e :: e in a <==> e in b
    ensures |a| == |b| && Sum(a) == Sum(b)
    decreases |a|
  {
    hide DistinctKeys;
    if |a| == 0 {
      SomeElement(b);
    } else {
      assert a[0] in b;
      var i :| 0 <= i < |b| && b[i] == a[0];
      var rest := b[..i] + b[i + 1..];
      Without(b, i);
      TailElements(a, EntryName);
      Tail'(a);
      SameSum(a[1..], rest);
      assert b == b[..i] + [b[i]] + b[i + 1..];
      SumOfConcat(b[..i] + [b[i]], b[i + 1..]);
      SumOfConcat(b[..i], [b[i]]);
      SumOfConcat(b[..i], b[i + 1..]);
    }
  }

  lemma Tail'(a: seq<RetentionEntry>)
    requires DistinctKeys(a, EntryName) && |a| > 0
    ensures DistinctKeys(a[1..], EntryName)
  {
  }

  lemma Without(b: seq<RetentionEntry>, i: nat)
    requires DistinctKeys(b, EntryName) && i < |b|
    ensures DistinctKeys(b[..i] + b[i + 1..], EntryName)
    ensures forall e :: e in b[..i] + b[i + 1..] <==> e in b && e != b[i]
  {
  }
}
