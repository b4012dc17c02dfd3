/** The analysis cache and its lookup protocol (internal/discovery). */
module AnalysisCaches {
  // Reading, publishing and pruning entries, and the lookup protocol: cache.go, cache_store.go and
  // cache_retention.go.

  import opened CacheKeys
  import opened CacheRetention
  import opened Orders
  import opened Policies
  import opened Strings

  // ------------------------------------------------------------------------------- the files

  /** The analysis result; `model` stands for all fields that the cache neither checks nor rewrites. */
  datatype AnalyzedCode = AnalyzedCode(
    moduleRoot: string, goVersion: string, effectiveBuild: BuildEnvironment, model: CodeModel)

  datatype Payload = ModelJson(code: AnalyzedCode) | OtherJson(text: string)

  datatype ModelDigest = Sha256OfPayload(payload: Payload) | OtherText(text: string)

  datatype Contents =
    | CacheEntry(version: int, key: string, digest: ModelDigest, payload: Payload)
    | Garbage(text: string)

  datatype CacheFile = CacheFile(contents: Contents, size: nat, modified: int, regular: bool)

  type Directory = map<string, CacheFile>

  const EMPTY_BUILD := BuildEnvironment("", "", [])

  /** SHA-256 as hexadecimal digits, the length of an encoding, and the syntax of Go versions. */
  datatype Codec = Codec(hash: KeyInput -> string, size: Contents -> nat, validVersion: string -> bool)

  ghost predicate Injective(codec: Codec)
  {
    forall a, b :: codec.hash(a) == codec.hash(b) ==> a == b
  }

  function Stripped(code: AnalyzedCode): AnalyzedCode
  {
    code.(effectiveBuild := EMPTY_BUILD)
  }

  predicate WellFormed(contents: Contents, key: string)
  {
    && contents.CacheEntry? && contents.version == ANALYSIS_CACHE_VERSION && contents.key == key
    && contents.digest == Sha256OfPayload(contents.payload)
  }

  function EntryOf(key: string, code: AnalyzedCode): Contents
  {
    CacheEntry(ANALYSIS_CACHE_VERSION, key, Sha256OfPayload(ModelJson(Stripped(code))), ModelJson(Stripped(code)))
  }

  // ------------------------------------------------------------------------------- retention

  predicate IsHexDigit(c: char)
  {
    '0' <= c <= '9' || 'a' <= c <= 'f'
  }

  predicate IsCacheFileName(name: string)
  {
    HasSuffix(name, ".json") && |name| == 64 + |".json"| && forall i :: 0 <= i < 64 ==> IsHexDigit(name[i])
  }

  /** `ownsAnalysisCachePayload`. */
  predicate OwnsPayload(codec: Codec, contents: Contents, key: string)
  {
    && WellFormed(contents, key) && contents.payload.ModelJson?
    && contents.payload.code.moduleRoot != "" && codec.validVersion(contents.payload.code.goVersion)
  }

  predicate Owned(codec: Codec, name: string, file: CacheFile)
  {
    && IsCacheFileName(name) && file.regular && file.size <= MAXIMUM_CACHE_ENTRY_BYTES
    && OwnsPayload(codec, file.contents, name[..64])
  }

  function EntryFor(name: string, file: CacheFile): RetentionEntry
  {
    RetentionEntry(name, file.size, file.modified)
  }

  /** The listing names the owned files and nothing else, each once. */
  ghost predicate Lists(codec: Codec, entries: seq<RetentionEntry>, files: Directory)
  {
    && DistinctKeys(entries, EntryName)
    && forall e :: e in entries <==> e.name in files && Owned(codec, e.name, files[e.name]) &&
                                     e == EntryFor(e.name, files[e.name])
  }

  /** What remains of a directory after a pass over the first `p` entries. */
  ghost predicate IsPruned(entries: seq<RetentionEntry>, keep: string, p: nat, before: Directory, after: Directory)
    requires p <= |entries|
  {
    && (forall name :: name in after <==>
          name in before && (name == keep || !exists i :: 0 <= i < p && entries[i].name == name))
    && (forall name :: name in after ==> after[name] == before[name])
  }

  lemma NothingPruned(entries: seq<RetentionEntry>, keep: string, files: Directory)
    ensures IsPruned(entries, keep, 0, files, files)
  {
  }

  lemma PruningStep(entries: seq<RetentionEntry>, keep: string, p: nat, before: Directory, now: Directory)
    requires p < |entries| && IsPruned(entries, keep, p, before, now)
    ensures entries[p].name == keep ==> IsPruned(entries, keep, p + 1, before, now)
    ensures entries[p].name != keep ==> IsPruned(entries, keep, p + 1, before, now - {entries[p].name})
  {
  }

  /** A publication keeps its own entry and every file that is not owned, and changes none. */
  lemma SurvivesPublication(codec: Codec, entries: seq<RetentionEntry>, key: string, p: nat, before: Directory,
                            after: Directory)
    requires Lists(codec, entries, before) && p <= |entries| && IsPruned(entries, key + ".json", p, before, after)
    ensures forall name :: name in after ==> name in before && after[name] == before[name]
    ensures forall name :: name in before && (name == key + ".json" || !Owned(codec, name, before[name])) ==>
              name in after && after[name] == before[name]
  {
    hide Owned, Lists;
    forall name | name in before && (name == key + ".json" || !Owned(codec, name, before[name]))
      ensures name in after && after[name] == before[name]
    {
      PruningSpares(codec, entries, key + ".json", p, before, after, name);
    }
  }

  /** The kept file and files that are not owned survive every pass. */
  lemma PruningSpares(codec: Codec, entries: seq<RetentionEntry>, keep: string, p: nat, before: Directory,
                      after: Directory, name: string)
    requires Lists(codec, entries, before) && p <= |entries| && IsPruned(entries, keep, p, before, after)
    requires name in before && (name == keep || !Owned(codec, name, before[name]))
    ensures name in after && after[name] == before[name]
  {
  }

  lemma EarlierNamesDiffer(entries: seq<RetentionEntry>, p: nat, e: RetentionEntry)
    requires DistinctKeys(entries, EntryName) && p <= |entries| && e in entries[p..]
    ensures forall i :: 0 <= i < p ==> entries[i].name != e.name
  {
  }

  lemma RemainingContains(entries: seq<RetentionEntry>, keep: string, p: nat, e: RetentionEntry)
    requires DistinctKeys(entries, EntryName) && p <= |entries|
    ensures e in Remaining(entries, keep, p) <==>
            e in entries && (e.name == keep || !exists i :: 0 <= i < p && entries[i].name == e.name)
  {
    KeptContains(entries[..p], keep, e);
    assert entries == entries[..p] + entries[p..];
    if e in entries[p..] {
      EarlierNamesDiffer(entries, p, e);
    }
  }

  lemma RemainingIsDistinct(entries: seq<RetentionEntry>, keep: string, p: nat)
    requires DistinctKeys(entries, EntryName) && p <= |entries|
    ensures DistinctKeys(Remaining(entries, keep, p), EntryName)
  {
    hide Kept;
    KeptIsDistinct(entries[..p], keep);
    var kept, rest := Kept(entries[..p], keep), entries[p..];
    var all := kept + rest;
    forall i, j | 0 <= i < j < |all|
      ensures EntryName(all[i]) != EntryName(all[j])
    {
      if j < |kept| {
        assert EntryName(kept[i]) != EntryName(kept[j]);
      } else if i >= |kept| {
        assert EntryName(entries[p + i - |kept|]) != EntryName(entries[p + j - |kept|]);
      } else {
        assert kept[i] in kept && rest[j - |kept|] in rest;
        KeptContains(entries[..p], keep, kept[i]);
        EarlierNamesDiffer(entries, p, rest[j - |kept|]);
        var k :| 0 <= k < p && entries[k] == kept[i];
      }
    }
  }

  lemma {:induction false} KeptIsDistinct(entries: seq<RetentionEntry>, keep: string)
    requires DistinctKeys(entries, EntryName)
    ensures DistinctKeys(Kept(entries, keep), EntryName)
  {
    if |entries| == 0 {
    } else {
      var front, last := entries[..|entries| - 1], entries[|entries| - 1];
      KeptIsDistinct(front, keep);
      forall e | e in Kept(front, keep)
        ensures e.name != last.name
      {
        KeptContains(front, keep, e);
        NoEarlierName(entries, e);
      }
    }
  }

  /** `count` and `total` of the pass are those of the owned entries that remain in the directory. */
  lemma RemainingIsListed(codec: Codec, entries: seq<RetentionEntry>, keep: string, p: nat, before: Directory,
                          after: Directory, listing: seq<RetentionEntry>)
    requires Lists(codec, entries, before) && p <= |entries| && IsPruned(entries, keep, p, before, after)
    requires Lists(codec, listing, after)
    ensures |listing| == |Remaining(entries, keep, p)| && Sum(listing) == Sum(Remaining(entries, keep, p))
  {
    hide Owned, Remaining, DistinctKeys, Sum;
    RemainingIsDistinct(entries, keep, p);
    forall e
      ensures e in listing <==> e in Remaining(entries, keep, p)
    {
      RemainingContains(entries, keep, p, e);
    }
    SameSum(listing, Remaining(entries, keep, p));
  }

  /** Publishing with the constants of the repository leaves the owned entries within both limits. */
  lemma PrunedWithinLimits(codec: Codec, entries: seq<RetentionEntry>, keep: string, p: nat, before: Directory,
                           after: Directory, listing: seq<RetentionEntry>)
    requires Lists(codec, entries, before) && p <= |entries| && IsPruned(entries, keep, p, before, after)
    requires Enough(entries, keep, p, MAXIMUM_ANALYSIS_CACHE_ENTRIES, MAXIMUM_ANALYSIS_CACHE_BYTES)
    requires Lists(codec, listing, after)
    ensures |listing| <= MAXIMUM_ANALYSIS_CACHE_ENTRIES && Sum(listing) <= MAXIMUM_ANALYSIS_CACHE_BYTES
  {
    hide IsPruned, DistinctKeys, Enough, Remaining, Sum;
    forall e | e in entries
      ensures e.size <= MAXIMUM_CACHE_ENTRY_BYTES
    {
    }
    FinishedWithinLimits(entries, keep, p);
    RemainingIsListed(codec, entries, keep, p, before, after, listing);
  }

  // --------------------------------------------------------------- analysis and what is genuine

  datatype World = World(executable: FileState, disk: Disk)

  datatype Analysis = Analysis(code: AnalyzedCode, packages: seq<Package>)

  /** Loading package metadata and running the uncached analysis, either of which may fail. */
  datatype Tools = Tools(
    metadata: (Options, World) -> Option<seq<Package>>, analyze: (Options, World) -> Option<Analysis>)

  /** Package IDs are unique in every load. */
  ghost predicate UniquePackages(tools: Tools)
  {
    && (forall o, w :: tools.metadata(o, w).Some? ==> DistinctKeys(tools.metadata(o, w).value, PackageId))
    && (forall o, w :: tools.analyze(o, w).Some? ==> DistinctKeys(tools.analyze(o, w).value.packages, PackageId))
  }

  function Seen(options: Options, world: World, packages: seq<Package>): Snapshot
  {
    Snapshot(options, world.executable, packages, world.disk)
  }

  /** This code is the stripped outcome of an analysis whose inputs have this key. */
  ghost predicate IsAnalysisUnder(tools: Tools, codec: Codec, key: string, code: AnalyzedCode, input: KeyInput,
                                  options: Options, world: World)
  {
    && tools.analyze(options, world).Some?
    && code == Stripped(tools.analyze(options, world).value.code)
    && IsKeyInput(input, Seen(options, world, tools.analyze(options, world).value.packages))
    && key == codec.hash(input)
  }

  ghost predicate Genuine(tools: Tools, codec: Codec, contents: Contents)
  {
    contents.CacheEntry? && WellFormed(contents, contents.key) && contents.payload.ModelJson? ==>
      exists input, options, world ::
        IsAnalysisUnder(tools, codec, contents.key, contents.payload.code, input, options, world)
  }

  ghost predicate AllGenuine(tools: Tools, codec: Codec, files: Directory)
  {
    forall name :: name in files ==> Genuine(tools, codec, files[name].contents)
  }

  ghost predicate SameFile(a: World, b: World, path: string)
  {
    FileAt(a.disk, path) == FileAt(b.disk, path)
  }

  /** Nothing was changed and changed back while the analysis ran. */
  ghost predicate NoChangeAndBack(before: World, during: World, after: World)
  {
    && (before.executable == after.executable ==> during.executable == before.executable)
    && (forall path :: SameFile(before, after, path) ==> SameFile(before, during, path))
  }

  /** What `refreshAnalysisCache` publishes: the key before and after the analysis is the same. */
  ghost predicate IsPublication(tools: Tools, codec: Codec, contents: Contents, options: Options, before: World,
                                during: World, after: World, input: KeyInput, again: KeyInput)
  {
    && tools.metadata(options, before).Some? && tools.analyze(options, during).Some?
    && IsKeyInput(input, Seen(options, before, tools.metadata(options, before).value))
    && IsKeyInput(again, Seen(options, after, tools.analyze(options, during).value.packages))
    && !Unhashable(Seen(options, before, tools.metadata(options, before).value))
    && !Unhashable(Seen(options, after, tools.analyze(options, during).value.packages))
    && codec.hash(input) == codec.hash(again) && NoChangeAndBack(before, during, after)
    && contents == EntryOf(codec.hash(input), tools.analyze(options, during).value.code)
  }

  lemma ReadableDigest(f: FileState, g: FileState)
    requires f != Unreadable && g != Unreadable && DigestOf(f) == DigestOf(g)
    ensures f == g
  {
  }

  /** What a key covers before and after the analysis was the same while it ran. */
  lemma CoveredDuring(input: KeyInput, options: Options, before: World, during: World, after: World,
                      listed: seq<Package>, analyzed: seq<Package>)
    requires IsKeyInput(input, Seen(options, before, listed)) && IsKeyInput(input, Seen(options, after, analyzed))
    requires !Unhashable(Seen(options, before, listed)) && !Unhashable(Seen(options, after, analyzed))
    requires NoChangeAndBack(before, during, after)
    ensures IsKeyInput(input, Seen(options, during, analyzed))
  {
    hide ArePackageInputs, Watched, Less, Increases, CoversPackages, IsSortOf, DigestOf;
    var s, t := Seen(options, before, listed), Seen(options, after, analyzed);
    FileInputsDecide(input.files, s, input.files, t);
    ReadableDigest(before.executable, after.executable);
    forall path | Watched(options, analyzed, path)
      ensures FileAt(during.disk, path) == FileAt(after.disk, path)
    {
      assert Watched(s.options, s.packages, path);
      ReadableDigest(FileAt(before.disk, path), FileAt(after.disk, path));
      assert SameFile(before, after, path) && SameFile(before, during, path);
    }
  }

  lemma PublicationIsGenuine(tools: Tools, codec: Codec, contents: Contents, options: Options, before: World,
                             during: World, after: World, input: KeyInput, again: KeyInput)
    requires Injective(codec)
    requires IsPublication(tools, codec, contents, options, before, during, after, input, again)
    ensures Genuine(tools, codec, contents)
  {
    hide IsKeyInput, Unhashable, NoChangeAndBack;
    var analysis := tools.analyze(options, during).value;
    assert input == again;
    CoveredDuring(input, options, before, during, after, tools.metadata(options, before).value, analysis.packages);
    assert IsAnalysisUnder(tools, codec, codec.hash(input), Stripped(analysis.code), input, options, during);
  }

  // ------------------------------------------------------------------------------ any history

  /** Contents may be kept, moved, copied or dropped, published by a refresh, or damaged. */
  ghost predicate MayHold(tools: Tools, codec: Codec, files: Directory, contents: Contents)
  {
    || (exists name :: name in files && files[name].contents == contents)
    || (exists options, before, during, after, input, again ::
          IsPublication(tools, codec, contents, options, before, during, after, input, again))
    || contents.Garbage? || !WellFormed(contents, contents.key)
  }

  /** One step of any process that uses the cache directory, or of whatever damages it. */
  ghost predicate Evolves(tools: Tools, codec: Codec, before: Directory, after: Directory)
  {
    forall name :: name in after ==> MayHold(tools, codec, before, after[name].contents)
  }

  lemma StepStaysGenuine(tools: Tools, codec: Codec, before: Directory, after: Directory)
    requires Injective(codec) && AllGenuine(tools, codec, before) && Evolves(tools, codec, before, after)
    ensures AllGenuine(tools, codec, after)
  {
    hide IsPublication, Injective;
    forall name | name in after
      ensures Genuine(tools, codec, after[name].contents)
    {
      var contents := after[name].contents;
      if options, before, during, after, input, again :|
           IsPublication(tools, codec, contents, options, before, during, after, input, again) {
        PublicationIsGenuine(tools, codec, contents, options, before, during, after, input, again);
      }
    }
  }

  /** In every history of a cache directory that starts empty, every entry is genuine. */
  lemma {:induction false} EveryEntryIsGenuine(tools: Tools, codec: Codec, history: seq<Directory>, k: nat)
    requires Injective(codec) && k < |history| && history[0] == map[]
    requires forall i :: 0 <= i < |history| - 1 ==> Evolves(tools, codec, history[i], history[i + 1])
    ensures AllGenuine(tools, codec, history[k])
  {
    hide Evolves, Genuine;
    if k == 0 {
    } else {
      EveryEntryIsGenuine(tools, codec, history, k - 1);
      StepStaysGenuine(tools, codec, history[k - 1], history[k]);
    }
  }

  // --------------------------------------------------------------------------------- lookup

  /** `decodeAnalysisCache`. */
  function DecodeAnalysisCache(contents: Contents, key: string, options: Options): Option<AnalyzedCode>
  {
    if !WellFormed(contents, key) || !contents.payload.ModelJson? ||
       contents.payload.code.moduleRoot != options.root || contents.payload.code.goVersion != options.goVersion
    then None
    else Some(contents.payload.code.(effectiveBuild := options.effectiveBuild))
  }

  /** `readAnalysisCache`, for an entry that can be read or is not there. */
  function ReadAnalysisCache(files: Directory, key: string, options: Options): Option<AnalyzedCode>
  {
    var name := key + ".json";
    if name !in files || files[name].size > MAXIMUM_CACHE_ENTRY_BYTES then None
    else DecodeAnalysisCache(files[name].contents, key, options)
  }

  /** The analysis records the root, the Go version and the effective build it was asked for. */
  ghost predicate RecordsOptions(tools: Tools)
  {
    forall o, w :: tools.analyze(o, w).Some? ==>
      var code := tools.analyze(o, w).value.code;
      code.moduleRoot == o.root && code.goVersion == o.goVersion && code.effectiveBuild == o.effectiveBuild
  }

  /** The uncached analysis depends on nothing but the inputs of the key and the Go version. */
  ghost predicate Determined(tools: Tools)
  {
    forall input, o, w, o', w' {:trigger IsDecidedBy(tools, input, o, w), IsAnalyzedFrom(tools, input, o', w')} ::
      IsDecidedBy(tools, input, o, w) && IsAnalyzedFrom(tools, input, o', w') && o.goVersion == o'.goVersion ==>
        tools.analyze(o, w).Some? &&
        Stripped(tools.analyze(o, w).value.code) == Stripped(tools.analyze(o', w').value.code)
  }

  ghost predicate IsDecidedBy(tools: Tools, input: KeyInput, o: Options, w: World)
  {
    tools.metadata(o, w).Some? && IsKeyInput(input, Seen(o, w, tools.metadata(o, w).value))
  }

  ghost predicate IsAnalyzedFrom(tools: Tools, input: KeyInput, o: Options, w: World)
  {
    tools.analyze(o, w).Some? && IsKeyInput(input, Seen(o, w, tools.analyze(o, w).value.packages))
  }

  /** A hit is what the uncached analysis would return. */
  lemma HitIsUncachedAnalysis(tools: Tools, codec: Codec, files: Directory, options: Options, world: World,
                              input: KeyInput)
    requires Injective(codec) && RecordsOptions(tools) && Determined(tools) && AllGenuine(tools, codec, files)
    requires IsDecidedBy(tools, input, options, world)
    requires ReadAnalysisCache(files, codec.hash(input), options).Some?
    ensures tools.analyze(options, world).Some?
    ensures ReadAnalysisCache(files, codec.hash(input), options).value == tools.analyze(options, world).value.code
  {
    hide IsKeyInput;
    var contents := files[codec.hash(input) + ".json"].contents;
    assert Genuine(tools, codec, contents);
    var input', o', w' :| IsAnalysisUnder(tools, codec, contents.key, contents.payload.code, input', o', w');
    assert input' == input;
    assert IsAnalyzedFrom(tools, input, o', w');
  }

  /** The inputs of the key cannot be loaded or read. */
  ghost predicate KeyFails(tools: Tools, options: Options, world: World)
  {
    tools.metadata(options, world).None? || Unhashable(Seen(options, world, tools.metadata(options, world).value))
  }

  // ------------------------------------------------------------------------------ the cache

  /** Which steps of publishing fail: creating, writing or renaming the staged file, removing it, listing. */
  datatype Faults = Faults(
    stage: bool, write: bool, renaming: bool, cleanup: bool, listing: bool, stuck: set<string>, partial: string)

  datatype LoadResult = Loaded(code: AnalyzedCode, hit: bool) | LoadFailed

  class AnalysisCache {
    const codec: Codec
    var files: Directory

    constructor (codec: Codec, files: Directory)
      ensures this.codec == codec && this.files == files
    {
      this.codec, this.files := codec, files;
    }

    /** `retainedAnalysisCacheEntries`, reading the directory in any order. */
    method RetainedAnalysisCacheEntries() returns (entries: seq<RetentionEntry>)
      ensures Lists(codec, entries, files)
    {
      hide Owned;
      entries := [];
      var rest := files.Keys;
      while rest != {}
        invariant rest <= files.Keys && DistinctKeys(entries, EntryName)
        invariant forall e :: e in entries <==>
                    e.name in files && e.name !in rest && Owned(codec, e.name, files[e.name]) &&
                    e == EntryFor(e.name, files[e.name])
        decreases rest
      {
        var name :| name in rest;
        forall e | e in entries
          ensures EntryName(e) != name
        {
        }
        if Owned(codec, name, files[name]) {
          entries := entries + [EntryFor(name, files[name])];
        }
        rest := rest - {name};
      }
    }

    /**
     `pruneAnalysisCache`: a failed removal ends the pass early; a file that is already gone counts
     as removed.
     */
    method PruneAnalysisCache(keep: string, maximumEntries: int, maximumBytes: int, listing: bool, stuck: set<string>)
      returns (ok: bool, ghost entries: seq<RetentionEntry>, ghost reached: nat)
      modifies this
      ensures listing ==> !ok && files == old(files) && entries == [] && reached == 0
      ensures !listing ==>
                && Lists(codec, entries, old(files)) && Ascending(entries, Older) && reached <= |entries|
                && Needed(entries, keep + ".json", reached, maximumEntries, maximumBytes)
                && IsPruned(entries, keep + ".json", reached, old(files), files)
                && (if ok then Enough(entries, keep + ".json", reached, maximumEntries, maximumBytes)
                    else reached < |entries| && entries[reached].name in stuck)
    {
      hide Owned, Lists, Older, Remaining, Kept, Sum, IsPruned, Ascending, NoInversion;
      if listing {
        return false, [], 0;
      }
      var listed := RetainedAnalysisCacheEntries();
      OlderIsOrder();
      var sorted := SortByLess(listed, Older);
      SortedListing(codec, sorted, listed, files);
      entries, reached := sorted, 0;
      var keepName, count := keep + ".json", |sorted|;
      var total := TotalSize(sorted);
      RemainingAtStart(sorted, keepName);
      NothingPruned(sorted, keepName, files);
      for i := 0 to |sorted|
        invariant reached == i
        invariant count == |Remaining(sorted, keepName, i)| && total == Sum(Remaining(sorted, keepName, i))
        invariant Needed(sorted, keepName, i, maximumEntries, maximumBytes)
        invariant IsPruned(sorted, keepName, i, old(files), files)
      {
        if count <= maximumEntries && total <= maximumBytes {
          return true, sorted, i;
        }
        RemainingStep(sorted, keepName, i);
        PruningStep(sorted, keepName, i, old(files), files);
        if sorted[i].name != keepName {
          if sorted[i].name in stuck {
            return false, sorted, i;
          }
          files := files - {sorted[i].name};
          count, total := count - 1, total - sorted[i].size;
        }
        reached := i + 1;
      }
      return true, sorted, |sorted|;
    }

    /** `writeAnalysisCache`: stage, rename into place, prune. */
    method WriteAnalysisCache(key: string, code: AnalyzedCode, temporary: string, now: int, faults: Faults)
      returns (ok: bool)
      modifies this
      ensures forall name :: name in files ==>
                || (name in old(files) && files[name] == old(files)[name])
                || files[name].contents == EntryOf(key, code) || files[name].contents.Garbage?
      ensures ok && codec.size(EntryOf(key, code)) <= MAXIMUM_CACHE_ENTRY_BYTES ==>
                key + ".json" in files && files[key + ".json"].contents == EntryOf(key, code) &&
                forall listing :: Lists(codec, listing, files) ==>
                  |listing| <= MAXIMUM_ANALYSIS_CACHE_ENTRIES && Sum(listing) <= MAXIMUM_ANALYSIS_CACHE_BYTES
      ensures forall name :: name in old(files) && name != key + ".json" && name != temporary &&
                             !Owned(codec, name, old(files)[name]) ==>
                name in files && files[name] == old(files)[name]
      ensures codec.size(EntryOf(key, code)) > MAXIMUM_CACHE_ENTRY_BYTES ==> ok && files == old(files)
      ensures !ok ==> faults.stage || temporary in old(files) || faults.write || faults.renaming || faults.listing ||
                      faults.stuck != {}
      ensures faults.stage || temporary in old(files) ==> files == old(files)
      ensures faults.write || faults.renaming ==> files - {temporary} == old(files) - {temporary}
    {
      hide Owned, Lists, Enough, Needed, Sum, Remaining, IsPruned, Ascending;
      var contents := EntryOf(key, code);
      if codec.size(contents) > MAXIMUM_CACHE_ENTRY_BYTES {
        return true;
      }
      ok := StageAndRename(key + ".json", contents, temporary, now, faults);
      if !ok {
        return;
      }
      ghost var published := files;
      ghost var entries, reached;
      ok, entries, reached := PruneAnalysisCache(
        key, MAXIMUM_ANALYSIS_CACHE_ENTRIES, MAXIMUM_ANALYSIS_CACHE_BYTES, faults.listing, faults.stuck);
      if !faults.listing {
        SurvivesPublication(codec, entries, key, reached, published, files);
      }
      if ok {
        forall listing | Lists(codec, listing, files)
          ensures |listing| <= MAXIMUM_ANALYSIS_CACHE_ENTRIES && Sum(listing) <= MAXIMUM_ANALYSIS_CACHE_BYTES
        {
          PrunedWithinLimits(codec, entries, key + ".json", reached, published, files, listing);
        }
      }
    }

    /** Write the entry under a temporary name and rename it; a failure leaves at most the temporary file. */
    method StageAndRename(name: string, contents: Contents, temporary: string, now: int, faults: Faults)
      returns (ok: bool)
      modifies this
      ensures ok <==> !(faults.stage || temporary in old(files) || faults.write || faults.renaming)
      ensures ok ==> files == (old(files) - {temporary})[name := CacheFile(contents, codec.size(contents), now, true)]
      ensures !ok ==> files == old(files) ||
                      (temporary in files && files == old(files)[temporary := files[temporary]] &&
                       (files[temporary].contents == contents || files[temporary].contents.Garbage?))
      ensures faults.stage || temporary in old(files) ==> files == old(files)
    {
      if faults.stage || temporary in files {
        return false;
      }
      if faults.write {
        files := files[temporary := CacheFile(Garbage(faults.partial), |faults.partial|, now, true)];
        RemoveStaged(temporary, faults.cleanup);
        return false;
      }
      var file := CacheFile(contents, codec.size(contents), now, true);
      files := files[temporary := file];
      if faults.renaming {
        RemoveStaged(temporary, faults.cleanup);
        return false;
      }
      files := files - {temporary};
      files := files[name := file];
      return true;
    }

    /** The deferred removal of the staged file, whose failure is ignored. */
    method RemoveStaged(temporary: string, fails: bool)
      modifies this
      ensures files == if fails then old(files) else old(files) - {temporary}
    {
      if !fails {
        files := files - {temporary};
      }
    }

    /**
     `loadCachedModel` on a world that changes under it: the key is taken `before`, the analysis runs
     `during`, and the key is taken again `after`. The directory may be absent or unusable, and the
     entry unreadable.
     */
    method LoadCachedModel(tools: Tools, options: Options, before: World, during: World, after: World,
                           present: bool, usable: bool, readable: bool, temporary: string, now: int, faults: Faults)
      returns (r: LoadResult)
      requires UniquePackages(tools) && Injective(codec) && NoChangeAndBack(before, during, after)
      modifies this
      ensures Evolves(tools, codec, old(files), files)
      ensures options.cacheReadOnly ==> files == old(files)
      ensures r.Loaded? && r.hit ==>
                files == old(files) &&
                exists input :: IsDecidedBy(tools, input, options, before) &&
                                ReadAnalysisCache(files, codec.hash(input), options) == Some(r.code)
      ensures r.Loaded? && !r.hit ==>
                tools.analyze(options, during).Some? && r.code == tools.analyze(options, during).value.code
      ensures present && usable && readable && !KeyFails(tools, options, before) ==>
                forall input :: IsDecidedBy(tools, input, options, before) &&
                                ReadAnalysisCache(old(files), codec.hash(input), options).Some? ==>
                  r == Loaded(ReadAnalysisCache(old(files), codec.hash(input), options).value, true)
      ensures r.LoadFailed? ==>
                || KeyFails(tools, options, before) || !usable || !readable || tools.analyze(options, during).None?
                || (!options.cacheReadOnly &&
                    (Unhashable(Seen(options, after, tools.analyze(options, during).value.packages)) ||
                     faults.stage || temporary in old(files) || faults.write || faults.renaming || faults.listing ||
                     faults.stuck != {}))
    {
      hide IsKeyInput, Unhashable, NoChangeAndBack, Injective, IsPublication;
      var listed := tools.metadata(options, before);
      if listed == None {
        return LoadFailed;
      }
      var input := AnalysisCacheKey(Seen(options, before, listed.value));
      if input == None {
        return LoadFailed;
      }
      if !present && options.cacheReadOnly {
        r := LoadPreparedModel(tools, options, during);
        return;
      }
      if !usable || !readable {
        return LoadFailed;
      }
      forall other | IsDecidedBy(tools, other, options, before)
        ensures other == input.value
      {
        KeyIsDetermined(input.value, other, Seen(options, before, listed.value));
      }
      var key := codec.hash(input.value);
      var lookup := ReadAnalysisCache(files, key, options);
      if lookup.Some? {
        assert IsDecidedBy(tools, input.value, options, before);
        return Loaded(lookup.value, true);
      }
      if options.cacheReadOnly {
        r := LoadPreparedModel(tools, options, during);
        return;
      }
      ghost var again;
      r, again := RefreshAnalysisCache(
        tools, options, before, during, after, listed.value, input.value, temporary, now, faults);
    }

    method LoadPreparedModel(tools: Tools, options: Options, during: World) returns (r: LoadResult)
      ensures r.Loaded? <==> tools.analyze(options, during).Some?
      ensures r.Loaded? ==> r == Loaded(tools.analyze(options, during).value.code, false)
    {
      var analysis := tools.analyze(options, during);
      return if analysis.Some? then Loaded(analysis.value.code, false) else LoadFailed;
    }

    /** `refreshAnalysisCache`: the entry is published only if the key has not changed meanwhile. */
    method RefreshAnalysisCache(tools: Tools, options: Options, ghost before: World, during: World, after: World,
                                ghost listed: seq<Package>, input: KeyInput, temporary: string, now: int,
                                faults: Faults)
      returns (r: LoadResult, ghost again: Option<KeyInput>)
      requires UniquePackages(tools) && NoChangeAndBack(before, during, after)
      requires tools.metadata(options, before) == Some(listed) && IsKeyInput(input, Seen(options, before, listed))
      requires !Unhashable(Seen(options, before, listed))
      modifies this
      ensures Evolves(tools, codec, old(files), files)
      ensures r.Loaded? ==>
                tools.analyze(options, during).Some? && r == Loaded(tools.analyze(options, during).value.code, false)
      ensures r.Loaded? ==>
                var analysis := tools.analyze(options, during).value;
                var entry := EntryOf(codec.hash(input), analysis.code);
                && again.Some? && IsKeyInput(again.value, Seen(options, after, analysis.packages))
                && (codec.hash(again.value) != codec.hash(input) ==> files == old(files))
                && (codec.hash(again.value) == codec.hash(input) &&
                    codec.size(entry) <= MAXIMUM_CACHE_ENTRY_BYTES ==>
                      codec.hash(input) + ".json" in files &&
                      files[codec.hash(input) + ".json"].contents == entry)
      ensures r.LoadFailed? ==>
                || tools.analyze(options, during).None?
                || Unhashable(Seen(options, after, tools.analyze(options, during).value.packages))
                || faults.stage || temporary in old(files) || faults.write || faults.renaming || faults.listing
                || faults.stuck != {}
    {
      hide IsKeyInput, Unhashable, NoChangeAndBack;
      again := None;
      var analysis := tools.analyze(options, during);
      if analysis == None {
        return LoadFailed, None;
      }
      var afterwards := AnalysisCacheKey(Seen(options, after, analysis.value.packages));
      again := afterwards;
      if afterwards == None {
        return LoadFailed, None;
      }
      if codec.hash(input) == codec.hash(afterwards.value) {
        ghost var contents := EntryOf(codec.hash(input), analysis.value.code);
        assert IsPublication(tools, codec, contents, options, before, during, after, input, afterwards.value);
        var ok := WriteAnalysisCache(codec.hash(input), analysis.value.code, temporary, now, faults);
        if !ok {
          return LoadFailed, again;
        }
      }
      return Loaded(analysis.value.code, false), again;
    }
  }

  lemma SortedListing(codec: Codec, sorted: seq<RetentionEntry>, listed: seq<RetentionEntry>, files: Directory)
    requires Lists(codec, listed, files) && multiset(sorted) == multiset(listed) && NoInversion(sorted, Older)
    ensures Lists(codec, sorted, files) && Ascending(sorted, Older)
  {
    hide Owned, Less;
    SameElements(sorted, listed);
    DistinctKeysOfPermutation(listed, sorted, EntryName);
    forall i, j | 0 <= i < j < |listed|
      ensures Older(listed[i], listed[j]) || Older(listed[j], listed[i])
    {
      assert EntryName(listed[i]) != EntryName(listed[j]);
      LessIsTotal(listed[i].name, listed[j].name);
    }
    SortedAscends(sorted, listed, Older);
  }

  method TotalSize(entries: seq<RetentionEntry>) returns (total: nat)
    ensures total == Sum(entries)
  {
    total := 0;
    assert Sum(entries[..0]) == 0;
    for k := 0 to |entries|
      invariant total == Sum(entries[..k])
    {
      SumStep(entries, k);
      total := total + entries[k].size;
    }
    assert entries[..|entries|] == entries;
  }

  lemma SumStep(entries: seq<RetentionEntry>, k: nat)
    requires k < |entries|
    ensures Sum(entries[..k + 1]) == Sum(entries[..k]) + entries[k].size
  {
    assert entries[..k + 1] == entries[..k] + [entries[k]];
    SumOfConcat(entries[..k], [entries[k]]);
  }

  lemma RemainingAtStart(entries: seq<RetentionEntry>, keep: string)
    ensures Remaining(entries, keep, 0) == entries
  {
  }
}
