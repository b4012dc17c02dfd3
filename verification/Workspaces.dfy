/** Collecting and relocating the modules of a workspace (internal/compiler). */
module Workspaces {
  // Collecting the module directories of a workspace and relocating its manifests into their copies:
  // workspace_sources.go, module_manifest.go and workspace_manifest.go.

  import opened Orders
  import opened Policies
  import opened Strings

  datatype Use = Use(path: string, modulePath: string)

  /** A replacement without a new version points to a local directory. */
  datatype Replacement = Replacement(oldPath: string, oldVersion: string, newPath: string, newVersion: string)

  datatype WorkFile = WorkFile(uses: seq<Use>, replacements: seq<Replacement>)

  /** What reading and parsing a `go.mod` file gives; `named` says whether it has a module directive. */
  datatype ModFile = Broken | ModFile(named: bool, replacements: seq<Replacement>)

  /** The path functions of the platform. */
  datatype Paths = Paths(isAbs: string -> bool, clean: string -> string, join: (string, string) -> string)

  /** The directories with their physical names, if they resolve, and the manifests by path. */
  datatype Sources = Sources(physical: string -> Option<string>, manifest: string -> ModFile)

  /** There are only these physical directories. */
  ghost predicate Finite(sources: Sources, disk: set<string>)
  {
    forall dir :: sources.physical(dir).Some? ==> sources.physical(dir).value in disk
  }

  // ---------------------------------------------------------------------------- the closure

  /** `resolveWorkspaceModulePath`. */
  function Resolve(paths: Paths, base: string, path: string): string
  {
    paths.clean(if paths.isAbs(path) then path else paths.join(base, path))
  }

  /** `localReplacementDirs`. */
  function LocalReplacementDirs(paths: Paths, replacements: seq<Replacement>, dir: string): seq<string>
  {
    if |replacements| == 0 then []
    else
      var last := replacements[|replacements| - 1];
      LocalReplacementDirs(paths, replacements[..|replacements| - 1], dir) +
      (if last.newVersion == "" then [Resolve(paths, dir, last.newPath)] else [])
  }

  lemma {:induction false} LocalReplacementsContain(paths: Paths, replacements: seq<Replacement>, dir: string)
    ensures forall x :: x in replacements && x.newVersion == "" ==>
              Resolve(paths, dir, x.newPath) in LocalReplacementDirs(paths, replacements, dir)
  {
    if |replacements| == 0 {
    } else {
      var last := replacements[|replacements| - 1];
      assert replacements == replacements[..|replacements| - 1] + [last];
      LocalReplacementsContain(paths, replacements[..|replacements| - 1], dir);
    }
  }

  function UseDirs(paths: Paths, uses: seq<Use>, dir: string): (r: seq<string>)
    ensures |r| == |uses| && forall i :: 0 <= i < |uses| ==> r[i] == Resolve(paths, dir, uses[i].path)
  {
    seq(|uses|, i requires 0 <= i < |uses| => Resolve(paths, dir, uses[i].path))
  }

  /** `workspaceModuleQueue`: the directories from which the search starts. */
  function WorkspaceModuleQueue(paths: Paths, work: WorkFile, dir: string): seq<string>
  {
    UseDirs(paths, work.uses, dir) + LocalReplacementDirs(paths, work.replacements, dir)
  }

  function ManifestPath(paths: Paths, alternates: map<string, string>, dir: string): string
  {
    if dir in alternates then alternates[dir] else paths.join(dir, "go.mod")
  }

  function ManifestOf(paths: Paths, sources: Sources, alternates: map<string, string>, dir: string): ModFile
  {
    sources.manifest(ManifestPath(paths, alternates, dir))
  }

  /** A project on disk: everything the search reads. */
  datatype Project = Project(paths: Paths, sources: Sources, alternates: map<string, string>)

  function Manifest(project: Project, dir: string): ModFile
  {
    ManifestOf(project.paths, project.sources, project.alternates, dir)
  }

  /** The directories to which the manifest of a directory leads. */
  function Next(project: Project, dir: string): seq<string>
  {
    match Manifest(project, dir)
    case Broken => []
    case ModFile(_, replacements) => LocalReplacementDirs(project.paths, replacements, dir)
  }

  ghost predicate IsChain(project: Project, roots: seq<string>, chain: seq<string>)
  {
    && |chain| > 0 && chain[0] in roots
    && forall i :: 0 <= i < |chain| - 1 ==> chain[i + 1] in Next(project, chain[i])
  }

  /** Reached from a root by following local replacements. */
  ghost predicate InClosure(project: Project, roots: seq<string>, dir: string)
  {
    exists chain :: IsChain(project, roots, chain) && chain[|chain| - 1] == dir
  }

  ghost predicate Closed(project: Project, roots: seq<string>, dirs: iset<string>)
  {
    (forall dir :: dir in roots ==> dir in dirs) &&
    forall dir, next :: dir in dirs && next in Next(project, dir) ==> next in dirs
  }

  lemma RootsAreReached(project: Project, roots: seq<string>, dir: string)
    requires dir in roots
    ensures InClosure(project, roots, dir)
  {
    assert IsChain(project, roots, [dir]);
  }

  lemma NextIsReached(project: Project, roots: seq<string>, dir: string, next: string)
    requires InClosure(project, roots, dir) && next in Next(project, dir)
    ensures InClosure(project, roots, next)
  {
    hide Next;
    var chain :| IsChain(project, roots, chain) && chain[|chain| - 1] == dir;
    var longer := chain + [next];
    forall i | 0 <= i < |longer| - 1
      ensures longer[i + 1] in Next(project, longer[i])
    {
      assert longer[i] == chain[i];
      assert i < |chain| - 1 ==> longer[i + 1] == chain[i + 1];
    }
    assert IsChain(project, roots, longer);
  }

  lemma {:induction false} ChainStaysInside(project: Project, roots: seq<string>, dirs: iset<string>,
                                            chain: seq<string>, k: nat)
    requires Closed(project, roots, dirs) && IsChain(project, roots, chain) && k < |chain|
    ensures chain[k] in dirs
  {
    hide Next;
    if k == 0 {
    } else {
      ChainStaysInside(project, roots, dirs, chain, k - 1);
    }
  }

  /** The closure is the least closed set. */
  lemma ClosureIsLeast(project: Project, roots: seq<string>)
    ensures Closed(project, roots, iset dir | InClosure(project, roots, dir))
    ensures forall dirs, dir :: Closed(project, roots, dirs) && InClosure(project, roots, dir) ==> dir in dirs
  {
    hide Next, InClosure;
    forall dir | dir in roots
      ensures InClosure(project, roots, dir)
    {
      RootsAreReached(project, roots, dir);
    }
    forall dir, next | InClosure(project, roots, dir) && next in Next(project, dir)
      ensures InClosure(project, roots, next)
    {
      NextIsReached(project, roots, dir, next);
    }
    forall dirs, dir | Closed(project, roots, dirs) && InClosure(project, roots, dir)
      ensures dir in dirs
    {
      Inside(project, roots, dirs, dir);
    }
  }

  lemma Inside(project: Project, roots: seq<string>, dirs: iset<string>, dir: string)
    requires Closed(project, roots, dirs) && InClosure(project, roots, dir)
    ensures dir in dirs
  {
    hide Next;
    var chain :| IsChain(project, roots, chain) && chain[|chain| - 1] == dir;
    ChainStaysInside(project, roots, dirs, chain, |chain| - 1);
  }

  // ---------------------------------------------------------------------------- the search

  predicate Readable(project: Project, dir: string)
  {
    && project.sources.physical(dir).Some?
    && Manifest(project, dir).ModFile? && Manifest(project, dir).named
  }

  ghost predicate Aliased(project: Project, a: string, b: string)
  {
    a != b && project.sources.physical(a).Some? && project.sources.physical(a) == project.sources.physical(b)
  }

  /** Every directory of the closure can be read, and no two of them are the same physical directory. */
  ghost predicate Collectable(project: Project, roots: seq<string>)
  {
    && (forall dir :: InClosure(project, roots, dir) ==> Readable(project, dir))
    && (forall a, b :: InClosure(project, roots, a) && InClosure(project, roots, b) ==> !Aliased(project, a, b))
  }

  /** Directories that were taken from the queue, and those still in it. */
  ghost predicate Explored(project: Project, roots: seq<string>, seen: set<string>, pending: seq<string>)
  {
    && (forall dir :: dir in seen || dir in pending ==> InClosure(project, roots, dir))
    && (forall dir :: dir in roots ==> dir in seen || dir in pending)
    && (forall dir, next :: dir in seen && next in Next(project, dir) ==> next in seen || next in pending)
    && (forall dir :: dir in seen ==> Readable(project, dir))
  }

  ghost predicate Registered(project: Project, seen: set<string>, physicalDirs: map<string, string>)
  {
    && (forall dir :: dir in seen ==>
          project.sources.physical(dir).Some? && project.sources.physical(dir).value in physicalDirs &&
          physicalDirs[project.sources.physical(dir).value] == dir)
    && (forall name :: name in physicalDirs ==>
          physicalDirs[name] in seen && project.sources.physical(physicalDirs[name]) == Some(name))
  }

  lemma ExploreNext(project: Project, roots: seq<string>, seen: set<string>, pending: seq<string>)
    requires |pending| > 0 && Explored(project, roots, seen, pending)
    ensures InClosure(project, roots, pending[0]) && forall dir :: dir in seen ==> InClosure(project, roots, dir)
    ensures pending[0] in seen ==> Explored(project, roots, seen, pending[1..])
    ensures Readable(project, pending[0]) ==>
              Explored(project, roots, seen + {pending[0]}, pending[1..] + Next(project, pending[0]))
  {
    hide Next, InClosure, Readable;
    assert pending == [pending[0]] + pending[1..];
    assert pending[0] in pending;
    forall next | next in Next(project, pending[0])
      ensures InClosure(project, roots, next)
    {
      NextIsReached(project, roots, pending[0], next);
    }
  }

  lemma FinishedSearch(project: Project, roots: seq<string>, seen: set<string>, physicalDirs: map<string, string>)
    requires Explored(project, roots, seen, []) && Registered(project, seen, physicalDirs)
    ensures Collectable(project, roots)
    ensures forall dir :: dir in seen <==> InClosure(project, roots, dir)
  {
    hide Next, InClosure, Readable;
    var all := iset dir | dir in seen;
    assert Closed(project, roots, all);
    forall dir | InClosure(project, roots, dir)
      ensures dir in seen
    {
      Inside(project, roots, all, dir);
    }
  }

  /** `collectWorkspaceModuleDirs`: the closure, exactly if all of it is readable and free of aliases. */
  method CollectWorkspaceModuleDirs(project: Project, roots: seq<string>, ghost disk: set<string>)
    returns (found: Option<set<string>>)
    requires Finite(project.sources, disk)
    ensures found.Some? <==> Collectable(project, roots)
    ensures found.Some? ==> forall dir :: dir in found.value <==> InClosure(project, roots, dir)
  {
    hide Explored, InClosure, Next, Manifest, Registered, Readable, Collectable;
    var pending, seen: set<string>, physicalDirs: map<string, string> := roots, {}, map[];
    StartSearch(project, roots);
    while |pending| > 0
      invariant Explored(project, roots, seen, pending) && Registered(project, seen, physicalDirs)
      invariant physicalDirs.Keys <= disk
      decreases |disk| - |physicalDirs.Keys|, |pending|
    {
      var dir := pending[0];
      ExploreNext(project, roots, seen, pending);
      pending := pending[1..];
      if dir in seen {
        continue;
      }
      UnreadableFound(project, roots, dir);
      var physical := project.sources.physical(dir);
      if physical == None {
        return None;
      }
      Register(project, seen, physicalDirs, dir);
      AliasFound(project, roots, seen, dir);
      if physical.value in physicalDirs && physicalDirs[physical.value] != dir {
        return None;
      }
      var manifest := Manifest(project, dir);
      if manifest.Broken? || !manifest.named {
        return None;
      }
      SubsetIsSmaller(physicalDirs.Keys, physical.value, disk);
      physicalDirs, seen := physicalDirs[physical.value := dir], seen + {dir};
      NextMeaning(project, dir);
      pending := pending + LocalReplacementDirs(project.paths, manifest.replacements, dir);
    }
    FinishedSearch(project, roots, seen, physicalDirs);
    return Some(seen);
  }

  lemma UnreadableFound(project: Project, roots: seq<string>, dir: string)
    requires InClosure(project, roots, dir)
    ensures Collectable(project, roots) ==> Readable(project, dir)
    ensures Readable(project, dir) <==>
            project.sources.physical(dir).Some? && Manifest(project, dir).ModFile? && Manifest(project, dir).named
  {
  }

  /** A directory that was not taken yet is registered unless its physical directory is. */
  lemma Register(project: Project, seen: set<string>, physicalDirs: map<string, string>, dir: string)
    requires Registered(project, seen, physicalDirs) && dir !in seen && project.sources.physical(dir).Some?
    ensures var name := project.sources.physical(dir).value;
            if name in physicalDirs then physicalDirs[name] in seen && Aliased(project, physicalDirs[name], dir)
            else Registered(project, seen + {dir}, physicalDirs[name := dir])
  {
  }

  /** `CollectWorkspaceSources`, for path arguments that are valid and a workspace that parses. */
  method CollectWorkspaceSources(project: Project, work: WorkFile, workspaceDir: string, ghost disk: set<string>)
    returns (dirs: Option<seq<string>>)
    requires Finite(project.sources, disk)
    ensures dirs.Some? <==>
              && ValidSourcePaths(project, workspaceDir) && |work.uses| > 0
              && Collectable(project, WorkspaceModuleQueue(project.paths, work, workspaceDir))
              && forall dir :: dir in project.alternates ==>
                   InClosure(project, WorkspaceModuleQueue(project.paths, work, workspaceDir), dir)
    ensures dirs.Some? ==> Increasing(dirs.value)
    ensures dirs.Some? ==> forall dir ::
              dir in dirs.value <==> InClosure(project, WorkspaceModuleQueue(project.paths, work, workspaceDir), dir)
  {
    hide InClosure, Collectable, WorkspaceModuleQueue, Less;
    if !ValidSourcePaths(project, workspaceDir) || |work.uses| == 0 {
      return None;
    }
    var roots := WorkspaceModuleQueue(project.paths, work, workspaceDir);
    var seen := CollectWorkspaceModuleDirs(project, roots, disk);
    if seen == None {
      return None;
    }
    var rest := project.alternates.Keys;
    while rest != {}
      invariant rest <= project.alternates.Keys
      invariant forall dir :: dir in project.alternates.Keys - rest ==> dir in seen.value
      decreases rest
    {
      var dir :| dir in rest;
      if dir !in seen.value {
        return None;
      }
      rest := rest - {dir};
    }
    var sorted := SortedDirs(seen.value);
    return Some(sorted);
  }

  /** `validateWorkspaceSourcePaths`. */
  predicate ValidSourcePaths(project: Project, workspaceDir: string)
  {
    && project.paths.isAbs(workspaceDir)
    && forall dir :: dir in project.alternates ==>
         && project.paths.isAbs(dir) && project.paths.clean(dir) == dir
         && project.paths.isAbs(project.alternates[dir]) && HasSuffix(project.alternates[dir], ".mod")
  }

  method SortedDirs(dirs: set<string>) returns (sorted: seq<string>)
    ensures Increasing(sorted) && forall dir :: dir in sorted <==> dir in dirs
  {
    hide Less;
    var rest, listed: seq<string> := dirs, [];
    while rest != {}
      invariant rest <= dirs && forall dir :: dir in listed <==> dir in dirs - rest
      decreases rest
    {
      var dir :| dir in rest;
      rest, listed := rest - {dir}, listed + [dir];
    }
    CanonicalSetContains(listed);
    return CanonicalSet(listed);
  }

  lemma StartSearch(project: Project, roots: seq<string>)
    ensures Explored(project, roots, {}, roots) && Registered(project, {}, map[])
  {
    hide InClosure;
    forall dir | dir in roots
      ensures InClosure(project, roots, dir)
    {
      RootsAreReached(project, roots, dir);
    }
  }

  lemma AliasFound(project: Project, roots: seq<string>, seen: set<string>, dir: string)
    requires InClosure(project, roots, dir) && forall a :: a in seen ==> InClosure(project, roots, a)
    ensures Collectable(project, roots) ==> forall a :: a in seen ==> !Aliased(project, a, dir)
  {
  }

  lemma SubsetIsSmaller(names: set<string>, name: string, disk: set<string>)
    requires names <= disk && name in disk && name !in names
    ensures |names| < |names + {name}| <= |disk|
  {
    assert |disk - (names + {name})| == |disk| - |names + {name}|;
  }

  lemma NextMeaning(project: Project, dir: string)
    ensures Manifest(project, dir).ModFile? ==>
              Next(project, dir) == LocalReplacementDirs(project.paths, Manifest(project, dir).replacements, dir)
  {
  }

  // ------------------------------------------------------------------- what leads where, spelled out

  /** An absolute path stays where it is, a relative one is below the directory that names it. */
  ghost predicate PointsTo(paths: Paths, dir: string, path: string, target: string)
  {
    (paths.isAbs(path) && target == paths.clean(path)) ||
    (!paths.isAbs(path) && target == paths.clean(paths.join(dir, path)))
  }

  /** A replacement without a version points to a directory. */
  ghost predicate ReplacesBy(paths: Paths, replacements: seq<Replacement>, dir: string, target: string)
  {
    exists r :: r in replacements && r.newVersion == "" && PointsTo(paths, dir, r.newPath, target)
  }

  lemma ResolveMeaning(paths: Paths, dir: string, path: string, target: string)
    ensures target == Resolve(paths, dir, path) <==> PointsTo(paths, dir, path, target)
  {
  }

  lemma {:induction false} LocalReplacementsMeaning(paths: Paths, replacements: seq<Replacement>, dir: string,
                                                    target: string)
    ensures target in LocalReplacementDirs(paths, replacements, dir) <==> ReplacesBy(paths, replacements, dir, target)
  {
    hide PointsTo, Resolve;
    if |replacements| == 0 {
    } else {
      var front, last := replacements[..|replacements| - 1], replacements[|replacements| - 1];
      LocalReplacementsMeaning(paths, front, dir, target);
      ResolveMeaning(paths, dir, last.newPath, target);
      assert replacements == front + [last] && last in replacements;
    }
  }

  /** The search starts from the used directories and the workspace's own local replacements. */
  lemma RootsMeaning(paths: Paths, work: WorkFile, dir: string, root: string)
    ensures root in WorkspaceModuleQueue(paths, work, dir) <==>
            || (exists use :: use in work.uses && PointsTo(paths, dir, use.path, root))
            || ReplacesBy(paths, work.replacements, dir, root)
  {
    hide PointsTo, Resolve, LocalReplacementDirs, ReplacesBy;
    LocalReplacementsMeaning(paths, work.replacements, dir, root);
    forall use: Use
      ensures root == Resolve(paths, dir, use.path) <==> PointsTo(paths, dir, use.path, root)
    {
      ResolveMeaning(paths, dir, use.path, root);
    }
    var dirs := UseDirs(paths, work.uses, dir);
    if root in dirs {
      var i :| 0 <= i < |dirs| && dirs[i] == root;
      assert work.uses[i] in work.uses;
    }
    if use :| use in work.uses && PointsTo(paths, dir, use.path, root) {
      var i :| 0 <= i < |work.uses| && work.uses[i] == use;
      assert dirs[i] == root;
    }
  }

  /** A directory leads on through the local replacements of its manifest: the alternate one, or its `go.mod`. */
  lemma StepMeaning(project: Project, dir: string, next: string)
    ensures var file := if dir in project.alternates then project.alternates[dir]
                        else project.paths.join(dir, "go.mod");
            next in Next(project, dir) <==>
            && project.sources.manifest(file).ModFile?
            && ReplacesBy(project.paths, project.sources.manifest(file).replacements, dir, next)
  {
    hide LocalReplacementDirs, ReplacesBy;
    var manifest := Manifest(project, dir);
    if manifest.ModFile? {
      LocalReplacementsMeaning(project.paths, manifest.replacements, dir, next);
    }
  }

  /** The workspace and every alternate manifest are given by paths that can be followed. */
  lemma SourcePathsMeaning(project: Project, workspaceDir: string)
    ensures ValidSourcePaths(project, workspaceDir) <==>
            && project.paths.isAbs(workspaceDir)
            && forall dir :: dir in project.alternates ==>
                 && project.paths.isAbs(dir) && dir == project.paths.clean(dir)
                 && project.paths.isAbs(project.alternates[dir])
                 && exists stem :: project.alternates[dir] == stem + ".mod"
  {
    forall dir | dir in project.alternates
      ensures HasSuffix(project.alternates[dir], ".mod") <==> exists stem :: project.alternates[dir] == stem + ".mod"
    {
      SuffixMeaning(project.alternates[dir]);
    }
    hide HasSuffix;
  }

  lemma SuffixMeaning(path: string)
    ensures HasSuffix(path, ".mod") <==> exists stem :: path == stem + ".mod"
  {
    if HasSuffix(path, ".mod") {
      assert path == path[..|path| - 4] + ".mod";
    }
    if stem :| path == stem + ".mod" {
      assert path[|path| - 4..] == ".mod";
    }
  }
}
