module CacheRules {
  // Which cache entries are hits, owned and pruned (internal/discovery).

  import opened AnalysisCaches
  import opened CacheKeys
  import opened CacheRetention
  import opened Orders
  import opened Policies

  // ----------------------------------------------------------------------------------- hits

  /** The contents are an intact entry of version 9 for this key, with this model. */
  ghost predicate IsEntry(contents: Contents, key: string, stored: AnalyzedCode)
  {
    contents == CacheEntry(9, key, Sha256OfPayload(ModelJson(stored)), ModelJson(stored))
  }

  /**
   A lookup hits exactly if there is an intact entry of at most 64 MiB for the key whose model was made
   for this root and Go version; it gives that model, with the effective build of the caller.
   */
  lemma HitExactly(files: Directory, key: string, options: Options, code: AnalyzedCode)
    ensures ReadAnalysisCache(files, key, options) == Some(code) <==>
            var name := key + ".json";
            && name in files && files[name].size <= 67108864
            && exists stored :: IsEntry(files[name].contents, key, stored)
                 && stored.moduleRoot == options.root && stored.goVersion == options.goVersion
                 && code.moduleRoot == stored.moduleRoot && code.goVersion == stored.goVersion
                 && code.model == stored.model && code.effectiveBuild == options.effectiveBuild
  {
    var name := key + ".json";
    if name in files && files[name].contents.CacheEntry? && files[name].contents.payload.ModelJson? {
      var stored := files[name].contents.payload.code;
      assert IsEntry(files[name].contents, key, stored) <==> WellFormed(files[name].contents, key);
    }
  }

  /** What was stored for a root and a Go version is found again for them, with the effective build of the caller. */
  lemma StoredIsHit(files: Directory, key: string, code: AnalyzedCode, options: Options)
    requires key + ".json" in files && files[key + ".json"].contents == EntryOf(key, code)
    requires files[key + ".json"].size <= 67108864
    requires code.moduleRoot == options.root && code.goVersion == options.goVersion
    ensures ReadAnalysisCache(files, key, options) == Some(code.(effectiveBuild := options.effectiveBuild))
  {
  }

  /** A stored entry says nothing of the build of the caller that stored it. */
  lemma StoredIsStripped(key: string, code: AnalyzedCode, build: BuildEnvironment)
    ensures EntryOf(key, code) == EntryOf(key, code.(effectiveBuild := build))
  {
  }

  // ------------------------------------------------------------------------------ retention

  /** The name of a cache file: a key of 64 hexadecimal digits in lower case. */
  ghost predicate IsNameOf(name: string, key: string)
  {
    name == key + ".json" && |key| == 64 && forall c :: c in key ==> c in "0123456789abcdef"
  }

  /** Owned are exactly the regular files of at most 64 MiB that are intact entries under their own name. */
  lemma OwnedExactly(codec: Codec, name: string, file: CacheFile)
    ensures Owned(codec, name, file) <==>
            && file.regular && file.size <= 67108864
            && exists key, stored :: IsNameOf(name, key) && IsEntry(file.contents, key, stored) &&
                                     stored.moduleRoot != "" && codec.validVersion(stored.goVersion)
  {
    hide IsHexDigit;
    FileNameMeaning(name);
    if Owned(codec, name, file) {
      assert IsNameOf(name, name[..64]) && IsEntry(file.contents, name[..64], file.contents.payload.code);
    }
    if key, stored :| IsNameOf(name, key) && IsEntry(file.contents, key, stored) && stored.moduleRoot != "" &&
                      codec.validVersion(stored.goVersion) {
      assert name[..64] == key;
    }
  }

  lemma HexDigits(c: char)
    ensures IsHexDigit(c) <==> c in "0123456789abcdef"
  {
    var digits := "0123456789abcdef";
    if '0' <= c <= '9' {
      assert digits[c as int - '0' as int] == c;
    } else if 'a' <= c <= 'f' {
      assert digits[c as int - 'a' as int + 10] == c;
    }
  }

  lemma FileNameMeaning(name: string)
    ensures IsCacheFileName(name) <==> |name| == 69 && IsNameOf(name, name[..64])
  {
    hide IsHexDigit;
    forall c
      ensures IsHexDigit(c) <==> c in "0123456789abcdef"
    {
      HexDigits(c);
    }
    if |name| == 69 {
      assert name == name[..64] + name[64..];
      assert name[64..] == name[|name| - 5..];
      assert forall i :: 0 <= i < 64 ==> name[i] == name[..64][i];
    }
  }

  /** Every file that a pass removes is older than every owned one that it leaves, or as old and first by name. */
  lemma OldestGoFirst(codec: Codec, entries: seq<RetentionEntry>, keep: string, p: nat, before: Directory,
                      after: Directory, gone: string, left: string)
    requires Lists(codec, entries, before) && Ascending(entries, Older)
    requires p <= |entries| && IsPruned(entries, keep, p, before, after)
    requires gone in before && gone !in after && left in after && left != keep && Owned(codec, left, before[left])
    ensures left in before
    ensures before[gone].modified < before[left].modified ||
            (before[gone].modified == before[left].modified && Less(gone, left))
  {
    hide Less, Owned;
    var i :| 0 <= i < p && entries[i].name == gone;
    assert entries[i] in entries;
    assert EntryFor(left, before[left]) in entries;
    var j :| 0 <= j < |entries| && entries[j] == EntryFor(left, before[left]);
    NotPassed(entries, keep, p, before, after, j);
    assert Older(entries[i], entries[j]);
  }

  lemma NotPassed(entries: seq<RetentionEntry>, keep: string, p: nat, before: Directory, after: Directory, j: nat)
    requires p <= |entries| && IsPruned(entries, keep, p, before, after)
    requires j < |entries| && entries[j].name != keep && entries[j].name in after
    ensures p <= j
  {
  }

  /** A finished pass with the limits of the repository leaves at most 64 owned entries of 256 MiB together. */
  lemma LimitsHold(codec: Codec, entries: seq<RetentionEntry>, keep: string, p: nat, before: Directory,
                   after: Directory, listing: seq<RetentionEntry>)
    requires Lists(codec, entries, before) && p <= |entries| && IsPruned(entries, keep, p, before, after)
    requires Enough(entries, keep, p, MAXIMUM_ANALYSIS_CACHE_ENTRIES, MAXIMUM_ANALYSIS_CACHE_BYTES)
    requires Lists(codec, listing, after)
    ensures |listing| <= 64 && Sum(listing) <= 268435456
    ensures forall e :: e in listing ==> e.name in after && e.size == after[e.name].size
  {
    hide Owned, IsPruned, Enough, Sum;
    PrunedWithinLimits(codec, entries, keep, p, before, after, listing);
  }
}
