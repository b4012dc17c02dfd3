module CacheCoverage {
  // Which files and facts the key of the analysis cache covers, one by one
  // (internal/discovery/cache_inputs.go).

  import opened CacheKeys
  import opened Orders
  import opened Policies
  import opened Strings

  // ------------------------------------------------------------------------ the specification

  /** The module of a package, or one that replaces it. */
  ghost predicate IsModuleOf(owner: Option<Module>, m: Module)
  {
    owner.Some? && (owner.value == m || IsModuleOf(owner.value.replacement, m))
  }

  /** `x.sum` belongs to `x.mod`; any other name is extended. */
  ghost predicate IsSumOf(sum: string, manifest: string)
  {
    if exists stem :: manifest == stem + ".mod" then exists stem :: manifest == stem + ".mod" && sum == stem + ".sum"
    else sum == manifest + ".sum"
  }

  /** Which manifest a module is built from: for main modules `go.mod`, unless another file stands in for it. */
  ghost predicate IsManifestOf(options: Options, m: Module, manifest: string)
  {
    if !m.main then manifest == m.goMod && manifest != ""
    else if options.effectiveBuild.modFile != "" && options.workspace.None? then
      manifest == options.effectiveBuild.modFile
    else manifest == m.dir + "/go.mod"
  }

  ghost predicate IsModuleFile(options: Options, m: Module, path: string)
  {
    || IsManifestOf(options, m, path)
    || (exists manifest :: IsManifestOf(options, m, manifest) && IsSumOf(path, manifest))
    || (m.main && options.effectiveBuild.moduleMode == "vendor" && options.workspace.None? &&
        path == m.dir + "/vendor/modules.txt")
  }

  ghost predicate IsWorkspaceFile(options: Options, path: string)
  {
    && options.workspace.Some?
    && var dir, name := options.workspace.value.dir, options.workspace.value.name;
       || path == dir + "/" + name
       || path == dir + "/" + name + ".sum"
       || (options.effectiveBuild.moduleMode == "vendor" && path == dir + "/vendor/modules.txt")
  }

  ghost predicate IsSourceFile(pkg: Package, path: string)
  {
    path in pkg.goFiles || path in pkg.compiledGoFiles || path in pkg.otherFiles || path in pkg.embedFiles
  }

  /** A file whose change must be noticed. */
  ghost predicate Matters(options: Options, packages: seq<Package>, path: string)
  {
    || IsWorkspaceFile(options, path)
    || exists pkg :: pkg in packages &&
         (|| IsSourceFile(pkg, path)
          || exists m :: IsModuleOf(pkg.owner, m) && IsModuleFile(options, m, path))
  }

  /** What the key holds of a file: its content, or that it has none. */
  ghost predicate Holds(files: seq<FileInput>, disk: Disk, path: string)
  {
    if path in disk && disk[path].Content? then FileInput(path, Sha256OfFile(disk[path].data)) in files
    else FileInput(path, MissingFile) in files
  }

  // ------------------------------------------------------------------------------------ files

  lemma SumOf(manifest: string, sum: string)
    ensures IsSumOf(sum, manifest) <==> sum == CompanionSum(manifest)
  {
    if HasSuffix(manifest, ".mod") {
      assert manifest == manifest[..|manifest| - 4] + ".mod";
      forall stem | manifest == stem + ".mod"
        ensures stem == manifest[..|manifest| - 4]
      {
      }
    } else {
      forall stem
        ensures manifest != stem + ".mod"
      {
        assert HasSuffix(stem + ".mod", ".mod");
      }
    }
  }

  lemma OneModule(options: Options, m: Module, path: string)
    ensures path in ModulePaths(options, Some(m)) <==>
            path in ModulePaths(options, m.replacement) || IsModuleFile(options, m, path)
  {
    hide CompanionSum, IsSumOf;
    assert m.dir + "/vendor/modules.txt" == Join(Join(m.dir, "vendor"), "modules.txt");
    assert m.dir + "/go.mod" == Join(m.dir, "go.mod") && Join(m.dir, "go.mod") != "";
    forall manifest
      ensures IsSumOf(path, manifest) <==> path == CompanionSum(manifest)
    {
      SumOf(manifest, path);
    }
  }

  lemma {:induction false} ModulePathsMatter(options: Options, owner: Option<Module>, path: string)
    ensures path in ModulePaths(options, owner) <==>
            exists m :: IsModuleOf(owner, m) && IsModuleFile(options, m, path)
  {
    hide IsModuleFile;
    if owner.None? {
    } else {
      OneModule(options, owner.value, path);
      ModulePathsMatter(options, owner.value.replacement, path);
      hide ModulePaths;
      assert IsModuleOf(owner, owner.value);
      forall m
        ensures IsModuleOf(owner, m) <==> m == owner.value || IsModuleOf(owner.value.replacement, m)
      {
      }
    }
  }

  lemma SourceFilesMatter(pkg: Package, path: string)
    ensures path in CanonicalSet(SourceFiles(pkg)) <==> IsSourceFile(pkg, path)
  {
    hide CanonicalSet;
    CanonicalSetContains(SourceFiles(pkg));
  }

  lemma WorkspacePathsMatter(options: Options, path: string)
    ensures path in WorkspacePaths(options) <==> IsWorkspaceFile(options, path)
  {
    if options.workspace.Some? {
      var dir := options.workspace.value.dir;
      assert Join(Join(dir, "vendor"), "modules.txt") == dir + "/vendor/modules.txt";
    }
  }

  /** The watched files are exactly those that matter. */
  lemma WatchedMatter(options: Options, packages: seq<Package>, path: string)
    ensures Watched(options, packages, path) <==> Matters(options, packages, path)
  {
    hide WorkspacePaths, IsWorkspaceFile, ModulePaths, CanonicalSet, IsSourceFile, IsModuleFile;
    WorkspacePathsMatter(options, path);
    forall pkg: Package
      ensures path in PackagePaths(options, pkg) <==>
              IsSourceFile(pkg, path) || exists m :: IsModuleOf(pkg.owner, m) && IsModuleFile(options, m, path)
    {
      SourceFilesMatter(pkg, path);
      ModulePathsMatter(options, pkg.owner, path);
    }
  }

  /** The key holds the state of exactly the files that matter. */
  lemma KeyCoversFiles(input: KeyInput, s: Snapshot, path: string)
    requires IsKeyInput(input, s)
    ensures Matters(s.options, s.packages, path) ==> Holds(input.files, s.disk, path)
    ensures Matters(s.options, s.packages, path) <==> exists digest :: FileInput(path, digest) in input.files
  {
    hide Watched, Matters, ArePackageInputs, SortedBy;
    WatchedMatter(s.options, s.packages, path);
    if Watched(s.options, s.packages, path) {
      assert FileInput(path, DigestOf(FileAt(s.disk, path))) in input.files;
    }
    if digest :| FileInput(path, digest) in input.files {
      assert FileInput(path, digest).path == path;
    }
  }

  /** There is no key exactly if the program or a file that matters can be neither read nor shown to be missing. */
  lemma KeyFailsExactly(s: Snapshot)
    ensures Unhashable(s) <==>
            || s.executable == Unreadable
            || exists path :: Matters(s.options, s.packages, path) && path in s.disk && s.disk[path] == Unreadable
  {
    hide Watched, Matters;
    forall path
      ensures Watched(s.options, s.packages, path) <==> Matters(s.options, s.packages, path)
    {
      WatchedMatter(s.options, s.packages, path);
    }
    if path :| Matters(s.options, s.packages, path) && path in s.disk && s.disk[path] == Unreadable {
      assert FileAt(s.disk, path) == Unreadable;
    }
  }

  // ------------------------------------------------------------------------------------ facts

  /** The same module, and so on for what replaces it. */
  ghost predicate SameModule(first: Option<Module>, second: Option<Module>)
  {
    match (first, second)
    case (None, None) => true
    case (Some(m), Some(n)) =>
      && m.path == n.path && m.version == n.version && m.dir == n.dir && m.main == n.main
      && m.goVersion == n.goVersion && SameModule(m.replacement, n.replacement)
    case _ => false
  }

  lemma {:induction false} ModuleIdentityMeaning(first: Option<Module>, second: Option<Module>)
    ensures ModuleIdentity(first) == ModuleIdentity(second) <==> SameModule(first, second)
  {
    if first.Some? && second.Some? {
      ModuleIdentityMeaning(first.value.replacement, second.value.replacement);
    }
  }

  ghost predicate SameFacts(p: Package, q: Package)
  {
    && p.id == q.id && p.path == q.path && p.name == q.name && p.dir == q.dir
    && (forall file :: IsSourceFile(p, file) <==> IsSourceFile(q, file))
    && (forall name :: name in p.imports <==> name in q.imports) && SameModule(p.owner, q.owner)
  }

  ghost predicate SameState(first: Disk, second: Disk, path: string)
  {
    var a, b := path in first && first[path].Content?, path in second && second[path].Content?;
    (a <==> b) && (a && b ==> first[path].data == second[path].data)
  }

  lemma SamePackageMeaning(p: Package, q: Package)
    ensures SamePackage(p, q) <==> SameFacts(p, q)
  {
    ModuleIdentityMeaning(p.owner, q.owner);
    forall file
      ensures file in SourceFiles(p) <==> IsSourceFile(p, file)
      ensures file in SourceFiles(q) <==> IsSourceFile(q, file)
    {
    }
    assert p.imports.Keys == q.imports.Keys <==> forall name :: name in p.imports.Keys <==> name in q.imports.Keys;
  }

  /**
   Two snapshots have one key exactly if all of this agrees: program, root, build, patterns up to order,
   switches, the facts of every package, which files matter, and the content of each.
   */
  ghost predicate Agree(s: Snapshot, t: Snapshot)
  {
    && (s.executable.Content? <==> t.executable.Content?)
    && (s.executable.Content? && t.executable.Content? ==> s.executable.data == t.executable.data)
    && s.options.root == t.options.root && s.options.effectiveBuild == t.options.effectiveBuild
    && multiset(s.options.patterns) == multiset(t.options.patterns)
    && s.options.callGraph == t.options.callGraph && s.options.includeTests == t.options.includeTests
    && s.options.includeDependencies == t.options.includeDependencies
    && (forall p :: p in s.packages ==> exists q :: q in t.packages && SameFacts(p, q))
    && (forall q :: q in t.packages ==> exists p :: p in s.packages && SameFacts(q, p))
    && forall path ::
         && (Matters(s.options, s.packages, path) <==> Matters(t.options, t.packages, path))
         && (Matters(s.options, s.packages, path) ==> SameState(s.disk, t.disk, path))
  }

  lemma CoversMeaning(these: seq<Package>, those: seq<Package>)
    ensures CoversPackages(these, those) <==>
            forall p :: p in these ==> exists q :: q in those && SameFacts(p, q)
  {
    hide SamePackage, SameFacts;
    forall p, q
      ensures SamePackage(p, q) <==> SameFacts(p, q)
    {
      SamePackageMeaning(p, q);
    }
  }

  lemma SameWatchedMeaning(s: Snapshot, t: Snapshot)
    ensures SameWatchedFiles(s, t) <==>
            forall path ::
              && (Matters(s.options, s.packages, path) <==> Matters(t.options, t.packages, path))
              && (Matters(s.options, s.packages, path) ==> SameState(s.disk, t.disk, path))
  {
    hide Watched, Matters;
    forall path
      ensures Watched(s.options, s.packages, path) <==> Matters(s.options, s.packages, path)
      ensures Watched(t.options, t.packages, path) <==> Matters(t.options, t.packages, path)
      ensures DigestOf(FileAt(s.disk, path)) == DigestOf(FileAt(t.disk, path)) <==> SameState(s.disk, t.disk, path)
    {
      WatchedMatter(s.options, s.packages, path);
      WatchedMatter(t.options, t.packages, path);
    }
  }

  lemma EqualKeysAgree(i: KeyInput, s: Snapshot, j: KeyInput, t: Snapshot)
    requires IsKeyInput(i, s) && IsKeyInput(j, t)
    ensures i == j <==> Agree(s, t)
  {
    hide IsKeyInput, SameWatchedFiles, CoversPackages, SameFacts, Matters, SameState;
    KeyMeaning(i, s, j, t);
    CoversMeaning(s.packages, t.packages);
    CoversMeaning(t.packages, s.packages);
    SameWatchedMeaning(s, t);
  }

  /** In particular, changing the content of a file that matters changes the key. */
  lemma ChangeIsNoticed(i: KeyInput, s: Snapshot, j: KeyInput, t: Snapshot, path: string)
    requires IsKeyInput(i, s) && IsKeyInput(j, t)
    requires Matters(s.options, s.packages, path) && !SameState(s.disk, t.disk, path)
    ensures i != j
  {
    hide IsKeyInput, SameFacts, Matters, SameState;
    EqualKeysAgree(i, s, j, t);
  }

  /** Unless another file stands in for it, the manifest of every main module matters, and its sum. */
  lemma MainManifestMatters(options: Options, packages: seq<Package>, pkg: Package)
    requires pkg in packages && pkg.owner.Some? && pkg.owner.value.main
    requires options.effectiveBuild.modFile == "" || options.workspace.Some?
    ensures Matters(options, packages, pkg.owner.value.dir + "/go.mod")
    ensures Matters(options, packages, pkg.owner.value.dir + "/go.sum")
  {
    hide IsWorkspaceFile, IsSourceFile;
    var m := pkg.owner.value;
    assert IsModuleOf(pkg.owner, m);
    assert m.dir + "/go.mod" == m.dir + "/go" + ".mod" && m.dir + "/go.sum" == m.dir + "/go" + ".sum";
    assert IsSumOf(m.dir + "/go.sum", m.dir + "/go.mod");
    assert IsModuleFile(options, m, m.dir + "/go.mod") && IsModuleFile(options, m, m.dir + "/go.sum");
  }
}
