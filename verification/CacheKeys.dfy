/** What the key of the analysis cache covers (internal/discovery/cache_inputs.go). */
module CacheKeys {
  import opened Orders
  import opened Policies
  import opened Strings

  const ANALYSIS_CACHE_VERSION := 9
  const VENDOR_MODULE_MODE := "vendor"

  // ---------------------------------------------------------------------------------- inputs

  /** The Go build environment; `settings` are all its fields that the code here does not read. */
  datatype BuildEnvironment = BuildEnvironment(modFile: string, moduleMode: string, settings: seq<string>)

  datatype Module = Module(
    path: string, version: string, dir: string, goMod: string, goVersion: string, main: bool,
    replacement: Option<Module>)

  datatype Package = Package(
    id: string, path: string, name: string, dir: string, goFiles: seq<string>, compiledGoFiles: seq<string>,
    otherFiles: seq<string>, embedFiles: seq<string>, imports: map<string, string>, owner: Option<Module>)

  datatype WorkspaceFile = WorkspaceFile(dir: string, name: string)

  datatype Options = Options(
    root: string, patterns: seq<string>, callGraph: bool, includeTests: bool, includeDependencies: bool,
    workspace: Option<WorkspaceFile>, effectiveBuild: BuildEnvironment, goVersion: string, cacheReadOnly: bool)

  datatype FileState = Missing | Unreadable | Content(data: string)

  type Disk = map<string, FileState>

  function FileAt(disk: Disk, path: string): FileState
  {
    if path in disk then disk[path] else Missing
  }

  /** Everything one computation of the key looks at. */
  datatype Snapshot = Snapshot(options: Options, executable: FileState, packages: seq<Package>, disk: Disk)

  // ----------------------------------------------------------------------------------- the key

  datatype FileDigest = MissingFile | Sha256OfFile(data: string)

  datatype ModuleInput = ModuleInput(
    goVersion: string, path: string, version: string, dir: string, main: bool, replacement: Option<ModuleInput>)

  datatype PackageInput = PackageInput(
    id: string, path: string, name: string, dir: string, files: seq<string>, imports: seq<string>,
    owner: Option<ModuleInput>)

  datatype FileInput = FileInput(path: string, digest: FileDigest)

  datatype KeyInput = KeyInput(
    version: int, implementation: FileDigest, root: string, environment: BuildEnvironment, patterns: seq<string>,
    callGraph: bool, tests: bool, includeDependencies: bool, packages: seq<PackageInput>, files: seq<FileInput>)

  function Self(s: string): string { s }

  function PackageId(pkg: Package): string { pkg.id }

  function InputId(input: PackageInput): string { input.id }

  function Join(dir: string, name: string): string { dir + "/" + name }

  function FilePath(workspace: WorkspaceFile): string { Join(workspace.dir, workspace.name) }

  function CompanionSum(modfile: string): string
  {
    if HasSuffix(modfile, ".mod") then modfile[..|modfile| - |".mod"|] + ".sum" else modfile + ".sum"
  }

  /** `cacheModulePaths`: the manifests that decide how a module is built. */
  function ModulePaths(options: Options, owner: Option<Module>): set<string>
  {
    match owner
    case None => {}
    case Some(m) =>
      var manifest :=
        if !m.main then m.goMod
        else if options.effectiveBuild.modFile != "" && options.workspace == None then options.effectiveBuild.modFile
        else Join(m.dir, "go.mod");
      ModulePaths(options, m.replacement) +
      (if m.main && options.effectiveBuild.moduleMode == VENDOR_MODULE_MODE && options.workspace == None
       then {Join(Join(m.dir, "vendor"), "modules.txt")} else {}) +
      (if manifest != "" then {manifest, CompanionSum(manifest)} else {})
  }

  /** `cacheModuleIdentity`. */
  function ModuleIdentity(owner: Option<Module>): Option<ModuleInput>
  {
    match owner
    case None => None
    case Some(m) => Some(ModuleInput(m.goVersion, m.path, m.version, m.dir, m.main, ModuleIdentity(m.replacement)))
  }

  function SourceFiles(pkg: Package): seq<string>
  {
    pkg.goFiles + pkg.compiledGoFiles + pkg.otherFiles + pkg.embedFiles
  }

  function WorkspacePaths(options: Options): set<string>
  {
    match options.workspace
    case None => {}
    case Some(workspace) =>
      {FilePath(workspace), FilePath(workspace) + ".sum"} +
      (if options.effectiveBuild.moduleMode == VENDOR_MODULE_MODE
       then {Join(Join(workspace.dir, "vendor"), "modules.txt")} else {})
  }

  function PackagePaths(options: Options, pkg: Package): set<string>
  {
    (set file | file in CanonicalSet(SourceFiles(pkg))) + ModulePaths(options, pkg.owner)
  }

  /** The files whose content the key covers. */
  ghost predicate Watched(options: Options, packages: seq<Package>, path: string)
  {
    || path in WorkspacePaths(options)
    || exists pkg :: pkg in packages && path in PackagePaths(options, pkg)
  }

  function DigestOf(file: FileState): FileDigest
  {
    if file.Content? then Sha256OfFile(file.data) else MissingFile
  }

  ghost predicate Increases(files: seq<FileInput>)
  {
    forall i, j :: 0 <= i < j < |files| ==> Less(files[i].path, files[j].path)
  }

  ghost predicate IsNames(names: seq<string>, values: set<string>)
  {
    Increasing(names) && forall x :: x in names <==> x in values
  }

  ghost predicate IsPackageInput(input: PackageInput, pkg: Package)
  {
    && input.id == pkg.id && input.path == pkg.path && input.name == pkg.name && input.dir == pkg.dir
    && input.files == CanonicalSet(SourceFiles(pkg)) && IsNames(input.imports, pkg.imports.Keys)
    && input.owner == ModuleIdentity(pkg.owner)
  }

  ghost predicate AllRecorded(packages: seq<Package>, inputs: seq<PackageInput>)
  {
    forall pkg :: pkg in packages ==> exists input :: input in inputs && IsPackageInput(input, pkg)
  }

  ghost predicate NothingElse(inputs: seq<PackageInput>, packages: seq<Package>)
  {
    forall input :: input in inputs ==> exists pkg :: pkg in packages && IsPackageInput(input, pkg)
  }

  ghost predicate ArePackageInputs(inputs: seq<PackageInput>, packages: seq<Package>)
  {
    && SortedBy(inputs, InputId) && DistinctKeys(inputs, InputId)
    && AllRecorded(packages, inputs) && NothingElse(inputs, packages)
  }

  ghost predicate AreFileInputs(files: seq<FileInput>, options: Options, packages: seq<Package>, disk: Disk)
  {
    && Increases(files)
    && (forall path :: Watched(options, packages, path) ==> FileInput(path, DigestOf(FileAt(disk, path))) in files)
    && (forall file :: file in files ==>
          Watched(options, packages, file.path) && file.digest == DigestOf(FileAt(disk, file.path)))
  }

  /** The hashed value is this one: its lists are in the one order that their contents allow. */
  ghost predicate IsKeyInput(input: KeyInput, s: Snapshot)
  {
    && input.version == ANALYSIS_CACHE_VERSION && input.implementation == DigestOf(s.executable)
    && input.root == s.options.root && input.environment == s.options.effectiveBuild
    && IsSortOf(input.patterns, s.options.patterns, Self)
    && input.callGraph == s.options.callGraph && input.tests == s.options.includeTests
    && input.includeDependencies == s.options.includeDependencies
    && ArePackageInputs(input.packages, s.packages)
    && AreFileInputs(input.files, s.options, s.packages, s.disk)
  }

  // ------------------------------------------------------------------------ what keys decide

  ghost predicate SamePackage(p: Package, q: Package)
  {
    && p.id == q.id && p.path == q.path && p.name == q.name && p.dir == q.dir
    && (forall file :: file in SourceFiles(p) <==> file in SourceFiles(q))
    && p.imports.Keys == q.imports.Keys && ModuleIdentity(p.owner) == ModuleIdentity(q.owner)
  }

  ghost predicate CoversPackages(these: seq<Package>, those: seq<Package>)
  {
    forall p :: p in these ==> exists q :: q in those && SamePackage(p, q)
  }

  /** Equal in everything that matters to the key; lists may differ in order and repetition. */
  ghost predicate SameInputs(s: Snapshot, t: Snapshot)
  {
    && DigestOf(s.executable) == DigestOf(t.executable)
    && s.options.root == t.options.root && s.options.effectiveBuild == t.options.effectiveBuild
    && multiset(s.options.patterns) == multiset(t.options.patterns)
    && s.options.callGraph == t.options.callGraph && s.options.includeTests == t.options.includeTests
    && s.options.includeDependencies == t.options.includeDependencies
    && CoversPackages(s.packages, t.packages) && CoversPackages(t.packages, s.packages)
    && SameWatchedFiles(s, t)
  }

  ghost predicate SameWatchedFiles(s: Snapshot, t: Snapshot)
  {
    forall path ::
      && (Watched(s.options, s.packages, path) <==> Watched(t.options, t.packages, path))
      && (Watched(s.options, s.packages, path) ==> DigestOf(FileAt(s.disk, path)) == DigestOf(FileAt(t.disk, path)))
  }

  lemma {:induction false} SortedStringsAreUnique(a: seq<string>, b: seq<string>)
    requires multiset(a) == multiset(b) && SortedBy(a, Self) && SortedBy(b, Self)
    ensures a == b
    decreases |a|
  {
    hide SortedBy;
    SameElements(a, b);
    if |a| == 0 {
    } else {
      HeadIsLeast(a, Self, b[0]);
      HeadIsLeast(b, Self, a[0]);
      LessIsTotal(a[0], b[0]);
      assert a == [a[0]] + a[1..] && b == [b[0]] + b[1..];
      Tail(a, Self);
      Tail(b, Self);
      assert multiset(a[1..]) == multiset(a) - multiset{a[0]};
      assert multiset(b[1..]) == multiset(b) - multiset{b[0]};
      SortedStringsAreUnique(a[1..], b[1..]);
    }
  }

  lemma PackageInputDecides(i: PackageInput, p: Package, j: PackageInput, q: Package)
    requires IsPackageInput(i, p) && IsPackageInput(j, q)
    ensures i == j <==> SamePackage(p, q)
  {
    hide Less;
    CanonicalSetIsDetermined(SourceFiles(p), SourceFiles(q));
    if SamePackage(p, q) {
      IncreasingIsUnique(i.imports, j.imports);
    }
  }

  lemma CoveredIfRecorded(inputs: seq<PackageInput>, ps: seq<Package>, others: seq<PackageInput>, qs: seq<Package>)
    requires AllRecorded(ps, inputs) && NothingElse(others, qs) && forall i :: i in inputs ==> i in others
    ensures CoversPackages(ps, qs)
  {
    hide IsPackageInput, SamePackage;
    forall p | p in ps
      ensures exists q :: q in qs && SamePackage(p, q)
    {
      var i :| i in inputs && IsPackageInput(i, p);
      var q :| q in qs && IsPackageInput(i, q);
      PackageInputDecides(i, p, i, q);
    }
  }

  lemma RecordedIfCovered(inputs: seq<PackageInput>, ps: seq<Package>, others: seq<PackageInput>, qs: seq<Package>)
    requires NothingElse(inputs, ps) && AllRecorded(qs, others) && CoversPackages(ps, qs)
    ensures forall i :: i in inputs ==> i in others
  {
    hide IsPackageInput, SamePackage;
    forall i | i in inputs
      ensures i in others
    {
      var p :| p in ps && IsPackageInput(i, p);
      var q :| q in qs && SamePackage(p, q);
      var j :| j in others && IsPackageInput(j, q);
      PackageInputDecides(i, p, j, q);
    }
  }

  lemma PackageInputsDecide(inputs: seq<PackageInput>, ps: seq<Package>, others: seq<PackageInput>, qs: seq<Package>)
    requires ArePackageInputs(inputs, ps) && ArePackageInputs(others, qs)
    ensures inputs == others <==> CoversPackages(ps, qs) && CoversPackages(qs, ps)
  {
    hide AllRecorded, NothingElse, SortedBy, DistinctKeys, CoversPackages;
    if inputs == others {
      CoveredIfRecorded(inputs, ps, others, qs);
      CoveredIfRecorded(others, qs, inputs, ps);
    }
    if CoversPackages(ps, qs) && CoversPackages(qs, ps) {
      RecordedIfCovered(inputs, ps, others, qs);
      RecordedIfCovered(others, qs, inputs, ps);
      SortedByElements(inputs, others, InputId);
    }
  }

  function InputPath(file: FileInput): string { file.path }

  lemma FileInputsDecide(fs: seq<FileInput>, s: Snapshot, gs: seq<FileInput>, t: Snapshot)
    requires AreFileInputs(fs, s.options, s.packages, s.disk) && AreFileInputs(gs, t.options, t.packages, t.disk)
    ensures fs == gs <==> SameWatchedFiles(s, t)
  {
    hide Watched, Less, Increases;
    if fs == gs {
      forall path
        ensures Watched(s.options, s.packages, path) <==> Watched(t.options, t.packages, path)
        ensures Watched(s.options, s.packages, path) ==>
                  DigestOf(FileAt(s.disk, path)) == DigestOf(FileAt(t.disk, path))
      {
        var f, g := FileInput(path, DigestOf(FileAt(s.disk, path))), FileInput(path, DigestOf(FileAt(t.disk, path)));
        assert Watched(s.options, s.packages, path) ==> f in fs;
        assert Watched(t.options, t.packages, path) ==> g in gs;
      }
    }
    if SameWatchedFiles(s, t) {
      IncreasingFilesAreUnique(fs, gs);
    }
  }

  lemma IncreasingFilesAreUnique(fs: seq<FileInput>, gs: seq<FileInput>)
    requires Increases(fs) && Increases(gs) && forall f :: f in fs <==> f in gs
    ensures fs == gs
  {
    IncreasingIsSorted(fs);
    IncreasingIsSorted(gs);
    SortedByElements(fs, gs, InputPath);
  }

  lemma IncreasingIsSorted(fs: seq<FileInput>)
    requires Increases(fs)
    ensures SortedBy(fs, InputPath) && DistinctKeys(fs, InputPath)
  {
    hide Less;
    forall i, j | 0 <= i < j < |fs|
      ensures InputPath(fs[i]) != InputPath(fs[j])
    {
      LessIsTotal(fs[i].path, fs[j].path);
    }
  }

  /** Two snapshots have the same key exactly if they agree on everything the key is meant to cover. */
  lemma KeyMeaning(i: KeyInput, s: Snapshot, j: KeyInput, t: Snapshot)
    requires IsKeyInput(i, s) && IsKeyInput(j, t)
    ensures i == j <==> SameInputs(s, t)
  {
    hide ArePackageInputs, AreFileInputs, SortedBy, SameWatchedFiles, CoversPackages;
    PackageInputsDecide(i.packages, s.packages, j.packages, t.packages);
    FileInputsDecide(i.files, s, j.files, t);
    if SameInputs(s, t) {
      SortedStringsAreUnique(i.patterns, j.patterns);
    }
  }

  /** A snapshot has one key. */
  lemma KeyIsDetermined(i: KeyInput, j: KeyInput, s: Snapshot)
    requires IsKeyInput(i, s) && IsKeyInput(j, s)
    ensures i == j
  {
    hide IsKeyInput, SamePackage, Watched;
    assert forall p :: SamePackage(p, p) by { EveryPackageIsItself(); }
    KeyMeaning(i, s, j, s);
  }

  lemma EveryPackageIsItself()
    ensures forall p :: SamePackage(p, p)
  {
  }

  // --------------------------------------------------------------------------------- the code

  lemma AppendNew(listed: seq<string>, x: string)
    requires DistinctKeys(listed, Self) && x !in listed
    ensures DistinctKeys(listed + [x], Self)
  {
  }

  /** The keys of a map, visited in any order, then sorted. */
  method SortedNames(values: set<string>) returns (names: seq<string>)
    ensures IsNames(names, values)
  {
    hide Less;
    var rest, listed: seq<string> := values, [];
    while rest != {}
      invariant rest <= values && forall x :: x in listed <==> x in values - rest
      invariant DistinctKeys(listed, Self)
      decreases rest
    {
      var x :| x in rest;
      AppendNew(listed, x);
      rest, listed := rest - {x}, listed + [x];
    }
    names := Sort(listed, Self);
    DistinctKeysOfPermutation(listed, names, Self);
    SameElements(names, listed);
    forall i, j | 0 <= i < j < |names|
      ensures Less(names[i], names[j])
    {
      assert AtMost(Self(names[i]), Self(names[j])) && Self(names[i]) != Self(names[j]);
    }
  }

  /** `cachePackageInputs`, with the packages in the order in which they are visited. */
  method CachePackageInputs(options: Options, packages: seq<Package>)
    returns (inputs: seq<PackageInput>, paths: set<string>)
    requires DistinctKeys(packages, PackageId)
    ensures ArePackageInputs(inputs, packages)
    ensures forall path :: path in paths <==> Watched(options, packages, path)
  {
    hide Less, ModulePaths, ModuleIdentity, CanonicalSet, SourceFiles, WorkspacePaths, ArePackageInputs, PackagePaths;
    hide DistinctKeys, IsPackageInput;
    inputs, paths := [], {};
    for k := 0 to |packages|
      invariant |inputs| == k && forall i :: 0 <= i < k ==> IsPackageInput(inputs[i], packages[i])
      invariant forall path :: path in paths <==>
                  exists i :: 0 <= i < k && path in PackagePaths(options, packages[i])
    {
      var input, added := CachePackageInput(options, packages[k]);
      paths := paths + added;
      inputs := inputs + [input];
    }
    ghost var visited := inputs;
    SortedInputs(visited, packages);
    inputs := SortUnique(inputs, InputId);
    SortedInputsStand(inputs, visited, packages);
    paths := paths + WorkspacePaths(options);
  }

  method CachePackageInput(options: Options, pkg: Package) returns (input: PackageInput, paths: set<string>)
    ensures IsPackageInput(input, pkg) && paths == PackagePaths(options, pkg)
  {
    hide Less, ModulePaths, ModuleIdentity, CanonicalSet, SourceFiles, IsNames;
    var files := CanonicalSet(SourceFiles(pkg));
    var imports := SortedNames(pkg.imports.Keys);
    input := PackageInput(pkg.id, pkg.path, pkg.name, pkg.dir, files, imports, ModuleIdentity(pkg.owner));
    paths := (set file | file in files) + ModulePaths(options, pkg.owner);
  }

  lemma SortedInputs(visited: seq<PackageInput>, packages: seq<Package>)
    requires |visited| == |packages| && forall i :: 0 <= i < |visited| ==> IsPackageInput(visited[i], packages[i])
    requires DistinctKeys(packages, PackageId)
    ensures DistinctKeys(visited, InputId)
  {
  }

  lemma SortedInputsStand(inputs: seq<PackageInput>, visited: seq<PackageInput>, packages: seq<Package>)
    requires |visited| == |packages| && forall i :: 0 <= i < |visited| ==> IsPackageInput(visited[i], packages[i])
    requires DistinctKeys(visited, InputId) && inputs == SortBy(visited, InputId)
    ensures ArePackageInputs(inputs, packages)
  {
    hide IsPackageInput, SortBy, SortedBy, DistinctKeys, AllRecorded, NothingElse;
    SortBySorts(visited, InputId);
    SameElements(inputs, visited);
    DistinctKeysOfPermutation(visited, inputs, InputId);
    PermutedAllRecorded(inputs, visited, packages);
    PermutedNothingElse(inputs, visited, packages);
  }

  lemma PermutedAllRecorded(inputs: seq<PackageInput>, visited: seq<PackageInput>, packages: seq<Package>)
    requires |visited| == |packages| && forall i :: 0 <= i < |visited| ==> IsPackageInput(visited[i], packages[i])
    requires forall input :: input in inputs <==> input in visited
    ensures AllRecorded(packages, inputs)
  {
  }

  lemma PermutedNothingElse(inputs: seq<PackageInput>, visited: seq<PackageInput>, packages: seq<Package>)
    requires |visited| == |packages| && forall i :: 0 <= i < |visited| ==> IsPackageInput(visited[i], packages[i])
    requires forall input :: input in inputs <==> input in visited
    ensures NothingElse(inputs, packages)
  {
  }

  /** `cacheFileInputs`: nothing if some file can be neither read nor shown to be missing. */
  method CacheFileInputs(disk: Disk, paths: set<string>) returns (files: Option<seq<FileInput>>)
    ensures files == None <==> exists path :: path in paths && FileAt(disk, path) == Unreadable
    ensures files.Some? ==>
              && Increases(files.value)
              && (forall path :: path in paths ==> FileInput(path, DigestOf(FileAt(disk, path))) in files.value)
              && (forall file :: file in files.value ==>
                    file.path in paths && file.digest == DigestOf(FileAt(disk, file.path)))
  {
    hide Less, DigestOf;
    var names := SortedNames(paths);
    var inputs: seq<FileInput> := [];
    for k := 0 to |names|
      invariant |inputs| == k
      invariant forall i :: 0 <= i < k ==> inputs[i] == FileInput(names[i], DigestOf(FileAt(disk, names[i])))
      invariant forall i :: 0 <= i < k ==> FileAt(disk, names[i]) != Unreadable
    {
      assert names[k] in names;
      if FileAt(disk, names[k]) == Unreadable {
        return None;
      }
      inputs := inputs + [FileInput(names[k], DigestOf(FileAt(disk, names[k])))];
    }
    forall path | path in paths
      ensures FileInput(path, DigestOf(FileAt(disk, path))) in inputs && FileAt(disk, path) != Unreadable
    {
      var i :| 0 <= i < |names| && names[i] == path;
      assert inputs[i] in inputs;
    }
    return Some(inputs);
  }

  /** Some file the key would cover cannot be read. */
  ghost predicate Unhashable(s: Snapshot)
  {
    s.executable == Unreadable ||
    exists path :: Watched(s.options, s.packages, path) && FileAt(s.disk, path) == Unreadable
  }

  /** `analysisCacheKey`, up to hashing the result. */
  method AnalysisCacheKey(s: Snapshot) returns (key: Option<KeyInput>)
    requires DistinctKeys(s.packages, PackageId)
    ensures key == None <==> Unhashable(s)
    ensures key.Some? ==> IsKeyInput(key.value, s)
  {
    hide Watched, Less, ArePackageInputs;
    var packages, paths := CachePackageInputs(s.options, s.packages);
    var files := CacheFileInputs(s.disk, paths);
    if files == None || s.executable == Unreadable {
      return None;
    }
    var patterns := Sort(s.options.patterns, Self);
    return Some(KeyInput(ANALYSIS_CACHE_VERSION, DigestOf(s.executable), s.options.root, s.options.effectiveBuild,
                         patterns, s.options.callGraph, s.options.includeTests, s.options.includeDependencies,
                         packages, files.value));
  }
}
