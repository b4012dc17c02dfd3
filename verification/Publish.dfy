/** Staging, verifying and publishing an artifact bundle (internal/compiler). */
module Publish {
  // internal/compiler/publish.go and artifacts.go: what the destination and its backup hold in every state
  // the file system goes through.

  import opened Lockfiles
  import opened Orders
  import opened Policies
  import opened Strings

  const MANIFEST := "manifest.json"

  // ------------------------------------------------------------------------- the file system

  datatype FileNode = Regular(data: string) | Irregular

  /**
   A name in the parent directory of the destination. A directory has files, by path below it, and may
   hold the directory of a previous bundle under the name that `replaceArtifactOutput` gives it.
   */
  datatype Node = Directory(files: map<string, FileNode>, held: Option<Node>) | NotDirectory

  const EMPTY_DIRECTORY := Directory(map[], None)

  type State = map<string, Node>

  datatype GeneratedFile = GeneratedFile(path: string, data: string)

  function FilePath(file: GeneratedFile): string { file.path }

  function InventoryOf(file: GeneratedFile): ArtifactFile { ArtifactFile(file.path, Sha256(file.data)) }

  /** The bundle that consists of these files. */
  ghost predicate HoldsExactly(node: Node, files: seq<GeneratedFile>)
  {
    && node.Directory? && node.held == None
    && (forall path :: path in node.files <==> exists file :: file in files && file.path == path)
    && (forall file :: file in files ==> node.files[file.path] == Regular(file.data))
  }

  // ---------------------------------------------------------------------------- verification

  /** Parsing of manifests and the syntax of artifact paths. */
  datatype Formats = Formats(manifest: string -> Option<seq<ArtifactFile>>, path: string -> bool)

  /** The files of the directory are those of the inventory, with those digests. */
  ghost predicate Conforms(files: map<string, FileNode>, inventory: seq<ArtifactFile>)
  {
    && (forall path :: path in files <==> exists artifact :: artifact in inventory && artifact.path == path)
    && (forall artifact :: artifact in inventory && artifact.path in files ==>
          files[artifact.path].Regular? && artifact.digest == Sha256(files[artifact.path].data))
  }

  ghost predicate ValidInventory(formats: Formats, inventory: seq<ArtifactFile>)
  {
    && DistinctKeys(inventory, ArtifactPath)
    && forall artifact :: artifact in inventory ==> formats.path(artifact.path) && artifact.digest.Sha256?
  }

  /** `artifactManifestInventory` on the manifest of a directory. */
  function ManifestInventory(formats: Formats, files: map<string, FileNode>): Option<seq<ArtifactFile>>
  {
    if MANIFEST !in files || !files[MANIFEST].Regular? then None
    else
      match formats.manifest(files[MANIFEST].data)
      case None => None
      case Some(listed) => Some(listed + [ArtifactFile(MANIFEST, Sha256(files[MANIFEST].data))])
  }

  /** What `ReadArtifacts` accepts: a directory whose own manifest describes it completely. */
  ghost predicate IsVerified(formats: Formats, node: Node, inventory: seq<ArtifactFile>)
  {
    && node.Directory? && node.held == None
    && ManifestInventory(formats, node.files).Some?
    && multiset(inventory) == multiset(ManifestInventory(formats, node.files).value)
    && SortedBy(inventory, ArtifactPath)
    && ValidInventory(formats, inventory) && Conforms(node.files, inventory)
  }

  method ExpectedArtifactInventory(formats: Formats, inventory: seq<ArtifactFile>)
    returns (expected: Option<map<string, Digest>>)
    ensures expected.Some? <==> ValidInventory(formats, inventory)
    ensures expected.Some? ==>
              && (forall artifact :: artifact in inventory ==>
                    artifact.path in expected.value && expected.value[artifact.path] == artifact.digest)
              && (forall path :: path in expected.value ==>
                    exists artifact :: artifact in inventory && artifact.path == path)
  {
    hide DistinctKeys;
    var digests: map<string, Digest> := map[];
    NoKeys(inventory[..0], ArtifactPath);
    for k := 0 to |inventory|
      invariant DistinctKeys(inventory[..k], ArtifactPath)
      invariant forall x :: x in digests.Keys <==> exists i :: 0 <= i < k && ArtifactPath(inventory[i]) == x
      invariant forall i :: 0 <= i < k ==>
                  formats.path(inventory[i].path) && inventory[i].digest.Sha256? &&
                  inventory[i].path in digests && digests[inventory[i].path] == inventory[i].digest
    {
      var artifact := inventory[k];
      assert artifact in inventory;
      SeenDecides(inventory, ArtifactPath, k, digests.Keys);
      if !formats.path(artifact.path) || artifact.path in digests || !artifact.digest.Sha256? {
        return None;
      }
      forall i | 0 <= i < k
        ensures inventory[i].path != artifact.path
      {
        assert ArtifactPath(inventory[i]) in digests.Keys;
      }
      digests := digests[artifact.path := artifact.digest];
    }
    assert inventory[..|inventory|] == inventory;
    return Some(digests);
  }

  predicate FileMatches(digests: map<string, Digest>, path: string, file: FileNode)
  {
    path in digests && file.Regular? && digests[path] == Sha256(file.data)
  }

  ghost predicate AllMatch(files: map<string, FileNode>, digests: map<string, Digest>)
  {
    forall path :: path in files ==> FileMatches(digests, path, files[path])
  }

  /** The walk over the files, in any order, which also counts them. */
  method WalkArtifacts(files: map<string, FileNode>, digests: map<string, Digest>) returns (ok: bool, count: nat)
    ensures ok <==> AllMatch(files, digests)
    ensures ok ==> count == |files|
  {
    hide FileMatches;
    var rest := files.Keys;
    count := 0;
    while rest != {}
      invariant rest <= files.Keys && count == |files.Keys| - |rest|
      invariant forall path :: path in files.Keys - rest ==> FileMatches(digests, path, files[path])
      decreases rest
    {
      var path :| path in rest;
      if !FileMatches(digests, path, files[path]) {
        return false, count;
      }
      rest, count := rest - {path}, count + 1;
    }
    return true, count;
  }

  /** Files that all match, and as many as expected, are all the expected ones. */
  lemma ConformsByCount(files: map<string, FileNode>, inventory: seq<ArtifactFile>, digests: map<string, Digest>)
    requires forall artifact :: artifact in inventory ==>
               artifact.path in digests && digests[artifact.path] == artifact.digest
    requires forall path :: path in digests ==> exists artifact :: artifact in inventory && artifact.path == path
    ensures Conforms(files, inventory) <==> AllMatch(files, digests) && |files| == |digests|
  {
    if AllMatch(files, digests) && |files| == |digests| {
      assert files.Keys <= digests.Keys;
      assert |digests.Keys - files.Keys| == |digests.Keys| - |files.Keys|;
      assert files.Keys == digests.Keys;
    }
    if Conforms(files, inventory) {
      assert files.Keys == digests.Keys;
    }
  }

  /** `VerifyArtifacts`. */
  method VerifyArtifacts(formats: Formats, files: map<string, FileNode>, inventory: seq<ArtifactFile>)
    returns (ok: bool)
    ensures ok <==> ValidInventory(formats, inventory) && Conforms(files, inventory)
  {
    hide ValidInventory, AllMatch, Conforms;
    var expected := ExpectedArtifactInventory(formats, inventory);
    if expected == None {
      return false;
    }
    var matched, count := WalkArtifacts(files, expected.value);
    ConformsByCount(files, inventory, expected.value);
    return matched && count == |expected.value|;
  }

  /** `ReadArtifacts`, for a directory that can be read. */
  method ReadArtifacts(formats: Formats, node: Node) returns (inventory: Option<seq<ArtifactFile>>)
    requires node.Directory? ==> node.held == None
    ensures inventory.Some? ==> IsVerified(formats, node, inventory.value)
    ensures inventory == None ==> forall other :: !IsVerified(formats, node, other)
  {
    hide ValidInventory, SortedBy;
    if !node.Directory? {
      return None;
    }
    var listed := ManifestInventory(formats, node.files);
    if listed == None {
      return None;
    }
    var sorted := Sort(listed.value, ArtifactPath);
    var ok := VerifyArtifacts(formats, node.files, sorted);
    if !ok {
      forall other
        ensures !IsVerified(formats, node, other)
      {
        SameVerdict(formats, node.files, sorted, other);
      }
      return None;
    }
    return Some(sorted);
  }

  lemma SameVerdict(formats: Formats, files: map<string, FileNode>, a: seq<ArtifactFile>, b: seq<ArtifactFile>)
    ensures multiset(a) == multiset(b) && ValidInventory(formats, b) && Conforms(files, b) ==>
              ValidInventory(formats, a) && Conforms(files, a)
  {
    if multiset(a) == multiset(b) && ValidInventory(formats, b) {
      SameElements(a, b);
      DistinctKeysOfPermutation(b, a, ArtifactPath);
    }
  }

  // ----------------------------------------------------------------------------- safe states

  /** One publication: what there was, which names it uses, what it publishes, and whether it may replace. */
  datatype Publication = Publication(
    start: State, destination: string, staged: string, backup: string, files: seq<GeneratedFile>, clean: bool)

  ghost predicate SameAt(a: State, b: State, name: string)
  {
    (name in a <==> name in b) && (name in a ==> a[name] == b[name])
  }

  ghost predicate OthersKept(s: State, p: Publication)
  {
    forall name :: name != p.destination && name != p.staged && name != p.backup ==> SameAt(s, p.start, name)
  }

  /** The previous output is where it was, or, if it may be replaced, complete in the backup. */
  ghost predicate PreviousIntact(s: State, p: Publication)
  {
    && OthersKept(s, p)
    && (|| SameAt(s, p.start, p.destination)
        || (p.clean && p.destination in p.start && p.destination !in s && p.backup in s &&
            s[p.backup] == Directory(map[], Some(p.start[p.destination]))))
  }

  ghost predicate Published(s: State, p: Publication)
  {
    && OthersKept(s, p) && (p.destination in p.start ==> p.clean)
    && p.destination in s && HoldsExactly(s[p.destination], p.files)
  }

  /** Up to some state the previous output is intact; from there on the new bundle is at the destination. */
  ghost predicate Phased(history: seq<State>, from: nat, turn: nat, p: Publication)
  {
    && from <= turn <= |history|
    && (forall k :: from <= k < turn ==> PreviousIntact(history[k], p))
    && (forall k :: turn <= k < |history| ==> Published(history[k], p))
  }

  // ------------------------------------------------------------------------------ the steps

  /** Which steps fail. Removing a tree passes through, and may stop at, any remainder of it. */
  datatype Faults = Faults(
    inspect: bool, parent: bool, stage: bool, write: int, publish: bool, backup: bool, moveAway: bool, moveIn: bool,
    restore: bool, removeBackup: bool, discardBackup: bool, discardStaged: bool, remainder: Node)

  const NO_FAULTS :=
    Faults(false, false, false, -1, false, false, false, false, false, false, false, false, EMPTY_DIRECTORY)

  datatype Outcome =
    | Success(inventory: seq<ArtifactFile>) | Unverified | StagingFailed | OutputDiffers | NotPublished
    | NotRestored | BackupNotRemoved

  /** One path is below the other, so that both cannot be files. */
  predicate Conflict(a: string, b: string)
  {
    HasPrefix(a, b + "/") || HasPrefix(b, a + "/")
  }

  ghost predicate CanStage(formats: Formats, files: seq<GeneratedFile>)
  {
    && DistinctKeys(files, FilePath)
    && (forall file :: file in files ==> formats.path(file.path))
    && NoConflicts(files)
  }

  /** The parent directory of the destination, with every state it has been in. */
  class ParentDirectory {
    var entries: State
    ghost var history: seq<State>

    constructor (entries: State)
      ensures this.entries == entries && history == [entries]
    {
      this.entries := entries;
      history := [entries];
    }

    method MakeTemporary(name: string, fails: bool) returns (ok: bool)
      requires name !in entries
      modifies this
      ensures ok == !fails
      ensures entries == if ok then old(entries)[name := EMPTY_DIRECTORY] else old(entries)
      ensures history == old(history) + [entries]
    {
      if !fails {
        entries := entries[name := EMPTY_DIRECTORY];
      }
      history := history + [entries];
      return !fails;
    }

    /** Rename one entry to a name that is not taken. */
    method Rename(from: string, to: string, fails: bool) returns (ok: bool)
      requires from in entries && to !in entries
      modifies this
      ensures ok == !fails
      ensures entries == if ok then (old(entries) - {from})[to := old(entries)[from]] else old(entries)
      ensures history == old(history) + [entries]
    {
      if !fails {
        var node := entries[from];
        entries := entries - {from};
        entries := entries[to := node];
      }
      history := history + [entries];
      return !fails;
    }

    /** Rename an entry to `artifacts` below an empty directory. */
    method MoveBelow(from: string, backup: string, fails: bool) returns (ok: bool)
      requires from in entries && backup in entries && from != backup && entries[backup] == EMPTY_DIRECTORY
      modifies this
      ensures ok == !fails
      ensures entries == if ok then (old(entries) - {from})[backup := Directory(map[], Some(old(entries)[from]))]
                         else old(entries)
      ensures history == old(history) + [entries]
    {
      if !fails {
        var node := entries[from];
        entries := entries - {from};
        entries := entries[backup := Directory(map[], Some(node))];
      }
      history := history + [entries];
      return !fails;
    }

    /** Rename `artifacts` below the directory back to an entry that is not there. */
    method MoveBack(backup: string, to: string, fails: bool) returns (ok: bool)
      requires backup in entries && to !in entries && entries[backup].Directory?
      requires entries[backup].files == map[] && entries[backup].held.Some?
      modifies this
      ensures ok == !fails
      ensures entries == if ok then old(entries)[backup := EMPTY_DIRECTORY][to := old(entries)[backup].held.value]
                         else old(entries)
      ensures history == old(history) + [entries]
    {
      if !fails {
        var node := entries[backup].held.value;
        entries := entries[backup := EMPTY_DIRECTORY][to := node];
      }
      history := history + [entries];
      return !fails;
    }

    method RemoveEmpty(name: string, fails: bool) returns (ok: bool)
      requires name in entries && entries[name] == EMPTY_DIRECTORY
      modifies this
      ensures ok == !fails
      ensures entries == if ok then old(entries) - {name} else old(entries)
      ensures history == old(history) + [entries]
    {
      if !fails {
        entries := entries - {name};
      }
      history := history + [entries];
      return !fails;
    }

    /** Remove a tree: first some of it, then, unless that fails, the rest. */
    method RemoveAll(name: string, remainder: Node, fails: bool) returns (ok: bool)
      modifies this
      ensures name !in old(entries) ==> ok && entries == old(entries) && history == old(history)
      ensures name in old(entries) ==>
                && ok == !fails
                && entries == (if ok then old(entries) - {name} else old(entries)[name := remainder])
                && history == old(history) + [old(entries)[name := remainder], entries]
    {
      if name !in entries {
        return true;
      }
      entries := entries[name := remainder];
      history := history + [entries];
      if !fails {
        entries := entries - {name};
      }
      history := history + [entries];
      return !fails;
    }

    // ---------------------------------------------------------------------------- staging

    /** `writeGeneratedArtifacts` into the empty staging directory, one file after the other. */
    method WriteGeneratedArtifacts(name: string, files: seq<GeneratedFile>, failing: int, ghost p: Publication,
                                   ghost from: nat) returns (ok: bool)
      requires name == p.staged && IsFresh(p) && DistinctKeys(files, FilePath)
      requires Untouched(entries, p) && Phased(history, from, |history|, p)
      requires name in entries && entries[name] == EMPTY_DIRECTORY
      modifies this
      ensures Untouched(entries, p) && Phased(history, from, |history|, p) && name in entries
      ensures ok ==> HoldsExactly(entries[name], files)
      ensures ok <==> !(0 <= failing < |files|) && NoConflicts(files)
    {
      hide Untouched, Phased, DistinctKeys, Conflict, HoldsExactly, NoConflicts, Blocked;
      NothingWritten(files[..0]);
      for k := 0 to |files|
        invariant Untouched(entries, p) && Phased(history, from, |history|, p)
        invariant name in entries && HoldsExactly(entries[name], files[..k])
        invariant NoConflicts(files[..k]) && !(0 <= failing < k)
      {
        var file, node := files[k], entries[name];
        assert node.Directory? by { BundleIsDirectory(node, files[..k]); }
        FileWritten(files, k, node);
        if failing == k || Blocked(node.files, file.path) {
          return false;
        }
        ghost var before := history;
        StagingKeeps(entries, p, node.(files := node.files[file.path := Regular(file.data)]));
        entries := entries[name := node.(files := node.files[file.path := Regular(file.data)])];
        history := history + [entries];
        StillIntact(before, from, p, entries);
      }
      assert files[..|files|] == files;
      return true;
    }

    /** `StageArtifacts`: a fresh directory with the generated files, or as much of it as cannot be removed. */
    method StageArtifacts(formats: Formats, name: string, files: seq<GeneratedFile>, faults: Faults,
                          ghost p: Publication, ghost from: nat) returns (inventory: Option<seq<ArtifactFile>>)
      requires name == p.staged && IsFresh(p) && name !in entries
      requires Untouched(entries, p) && Phased(history, from, |history|, p)
      modifies this
      ensures Untouched(entries, p) && Phased(history, from, |history|, p)
      ensures inventory.Some? ==>
                && name in entries && HoldsExactly(entries[name], files) && Describes(inventory.value, files)
      ensures inventory.Some? <==>
                CanStage(formats, files) && !faults.stage && !(0 <= faults.write < |files|)
    {
      hide Untouched, Phased, DistinctKeys, HoldsExactly, NoConflicts, Describes;
      var described := GeneratedArtifactInventory(formats, files);
      if described == None {
        return None;
      }
      ghost var before := history;
      StagingKeeps(entries, p, EMPTY_DIRECTORY);
      var made := MakeTemporary(name, faults.stage);
      StillIntact(before, from, p, entries);
      if !made {
        return None;
      }
      var written := WriteGeneratedArtifacts(name, files, faults.write, p, from);
      if !written {
        ghost var now := entries;
        StagedIsFree(now, now, p);
        ghost var after := DiscardStaged(name, faults, p, from, |history|);
        StagedIsFree(now, entries, p);
        return None;
      }
      return described;
    }

    /** The deferred removal of the staged directory; its failure is ignored. */
    method DiscardStaged(name: string, faults: Faults, ghost p: Publication, ghost from: nat, ghost turn: nat)
      returns (ghost after: nat)
      requires name == p.staged && IsFresh(p) && Phased(history, from, turn, p)
      requires if turn == |history| then PreviousIntact(entries, p) else Published(entries, p)
      modifies this
      ensures Phased(history, from, after, p)
      ensures if turn == |old(history)| then after == |history| else after == turn && turn < |history|
      ensures forall other :: other != name ==> SameAt(entries, old(entries), other)
      ensures !faults.discardStaged ==> name !in entries
      ensures name !in old(entries) ==> entries == old(entries)
    {
      hide Phased, PreviousIntact, Published;
      ghost var before, start := history, entries;
      TurnInRange(before, from, turn, p);
      after := turn;
      StagedIsGone(start, start[name := faults.remainder], p);
      StagedIsGone(start, start - {name}, p);
      var ok := RemoveAll(name, faults.remainder, faults.discardStaged);
      if name in start {
        ghost var middle := start[name := faults.remainder];
        assert history == before + [middle] + [entries];
        if turn == |before| {
          StillIntact(before, from, p, middle);
          StillIntact(before + [middle], from, p, entries);
          after := |history|;
        } else {
          StillPublished(before, from, turn, p, middle);
          StillPublished(before + [middle], from, turn, p, entries);
        }
      }
    }

    // ------------------------------------------------------------------------ replacement

    /** `commitArtifactReplacement`: the previous output is in the backup, the new one is staged. */
    method CommitArtifactReplacement(destination: string, staged: string, backup: string, faults: Faults,
                                     inventory: seq<ArtifactFile>, ghost p: Publication, ghost from: nat)
      returns (r: Outcome, ghost turn: nat)
      requires IsFresh(p) && p.destination == destination && p.staged == staged && p.backup == backup
      requires MovedAway(entries, p) && Phased(history, from, |history|, p)
      requires staged in entries && HoldsExactly(entries[staged], p.files)
      modifies this
      ensures Phased(history, from, turn, p)
      ensures if faults.moveIn then turn == |history| else turn < |history|
      ensures HandledMove(r, entries, faults, inventory, p)
    {
      hide Phased, HoldsExactly, OthersKept;
      ghost var before := history;
      MoveInKeeps(entries, p);
      var published := Rename(staged, destination, faults.moveIn);
      turn := |before|;
      if !published {
        StillIntact(before, from, p, entries);
        before := history;
        MoveBackKeeps(entries, p);
        var restored := MoveBack(backup, destination, faults.restore);
        StillIntact(before, from, p, entries);
        turn := |history|;
        if !restored {
          return NotRestored, turn;
        }
        before := history;
        BackupIsFree(entries, p, entries - {backup});
        var removed := RemoveEmpty(backup, faults.removeBackup);
        StillIntact(before, from, p, entries);
        return NotPublished, |history|;
      }
      FirstPublished(before, from, p, entries);
      before := history;
      ghost var now := entries;
      BackupIsGone(now, p, now[backup := faults.remainder]);
      BackupIsGone(now, p, now - {backup});
      var removed := RemoveAll(backup, faults.remainder, faults.discardBackup);
      StillPublished(before, from, turn, p, now[backup := faults.remainder]);
      StillPublished(before + [now[backup := faults.remainder]], from, turn, p, entries);
      assert history == before + [now[backup := faults.remainder]] + [entries];
      return if removed then Success(inventory) else BackupNotRemoved, turn;
    }

    /** `replaceArtifactOutput`: move the previous output below a fresh backup, then commit. */
    method ReplaceArtifactOutput(destination: string, staged: string, backup: string, faults: Faults,
                                 inventory: seq<ArtifactFile>, ghost p: Publication, ghost from: nat)
      returns (r: Outcome, ghost turn: nat)
      requires IsFresh(p) && p.destination == destination && p.staged == staged && p.backup == backup
      requires p.clean && destination in p.start && Untouched(entries, p) && Phased(history, from, |history|, p)
      requires staged in entries && HoldsExactly(entries[staged], p.files)
      modifies this
      ensures Phased(history, from, turn, p) && Handled(r, entries, turn, history, faults, inventory, p)
    {
      hide Phased, HoldsExactly, Untouched, MovedAway, HandledMove;
      ghost var before := history;
      BackupIsMade(entries, p);
      var made := MakeTemporary(backup, faults.backup);
      StillIntact(before, from, p, entries);
      if !made {
        return NotPublished, |history|;
      }
      before := history;
      ghost var now := entries;
      MovedBelow(now, p);
      var moved := MoveBelow(destination, backup, faults.moveAway);
      StillIntact(before, from, p, entries);
      if !moved {
        before := history;
        BackupIsFree(entries, p, entries - {backup});
        var removed := RemoveEmpty(backup, faults.removeBackup);
        StillIntact(before, from, p, entries);
        return NotPublished, |history|;
      }
      r, turn := CommitArtifactReplacement(destination, staged, backup, faults, inventory, p, from);
      CommitHandled(r, entries, turn, history, faults, inventory, p);
    }

    /** `publishStagedArtifacts`. */
    method PublishStagedArtifacts(destination: string, staged: string, backup: string, present: bool, clean: bool,
                                  faults: Faults, inventory: seq<ArtifactFile>, ghost p: Publication, ghost from: nat)
      returns (r: Outcome, ghost turn: nat)
      requires IsFresh(p) && p.destination == destination && p.staged == staged && p.backup == backup
      requires present == (destination in p.start) && p.clean == clean
      requires Untouched(entries, p) && Phased(history, from, |history|, p)
      requires staged in entries && HoldsExactly(entries[staged], p.files)
      modifies this
      ensures Phased(history, from, turn, p) && Handled(r, entries, turn, history, faults, inventory, p)
    {
      hide Phased, HoldsExactly;
      if present {
        if !clean {
          return OutputDiffers, |history|;
        }
        r, turn := ReplaceArtifactOutput(destination, staged, backup, faults, inventory, p, from);
        return;
      }
      ghost var before, now := history, entries;
      StagedIsFree(now, now, p);
      FirstOutput(now, p);
      var published := Rename(staged, destination, faults.publish);
      if !published {
        StillIntact(before, from, p, entries);
        return NotPublished, |history|;
      }
      FirstPublished(before, from, p, entries);
      return Success(inventory), |before|;
    }

    // ------------------------------------------------------------------------- publication

    /** `PublishArtifacts`, with the names that its temporary directories get. */
    method PublishArtifacts(formats: Formats, destination: string, files: seq<GeneratedFile>, clean: bool,
                            staged: string, backup: string, faults: Faults) returns (r: Outcome, ghost turn: nat)
      requires destination != staged && destination != backup && staged != backup
      requires staged !in entries && backup !in entries
      requires destination in entries && entries[destination].Directory? ==> entries[destination].held == None
      modifies this
      ensures var p := Publication(old(entries), destination, staged, backup, files, clean);
              && Phased(history, |old(history)|, turn, p) && Concluded(r, entries, turn, history, p)
              && (r.Success? ==> backup !in entries && (!faults.discardStaged ==> staged !in entries))
              && (faults == NO_FAULTS ==> (r.Success? <==> Publishable(formats, p)))
    {
      hide Phased, HoldsExactly, CanStage, Describes, PreviousIntact, OthersKept, IsVerified, SelfDescribing, MovedAway;
      ghost var p, from := Publication(entries, destination, staged, backup, files, clean), |history|;
      NothingHappened(history, p);
      turn := from;
      if faults.inspect {
        return Unverified, turn;
      }
      var previous: Option<seq<ArtifactFile>> := None;
      if destination in entries {
        previous := ReadArtifacts(formats, entries[destination]);
        if previous == None {
          return Unverified, turn;
        }
      }
      if faults.parent {
        return StagingFailed, turn;
      }
      var inventory := StageArtifacts(formats, staged, files, faults, p, from);
      turn := |history|;
      ghost var now := entries;
      UntouchedMeaning(now, p);
      if inventory == None {
        return StagingFailed, turn;
      }
      assert entries[staged].Directory? && entries[staged].held == None by { BundleIsPlain(entries[staged], files); }
      var check := ReadArtifacts(formats, entries[staged]);
      OnlyBundle(formats, entries[staged], files);
      if previous.Some? {
        SameInventory(formats, p.start[destination], previous.value, inventory.value, files);
      }
      if check == None {
        turn := DiscardStaged(staged, faults, p, from, turn);
        StagedIsGone(now, entries, p);
        return StagingFailed, turn;
      }
      if previous.Some? && previous.value == inventory.value {
        turn := DiscardStaged(staged, faults, p, from, turn);
        StagedIsGone(now, entries, p);
        assert SameAt(entries, now, destination) && SameAt(entries, now, backup);
        return Success(previous.value), turn;
      }
      r, turn := PublishVerifiedArtifacts(
        destination, staged, backup, previous.Some?, clean, faults, inventory.value, p, from);
    }

    /** The end of `PublishArtifacts`: publish, and then discard whatever is left of the staged directory. */
    method PublishVerifiedArtifacts(destination: string, staged: string, backup: string, present: bool, clean: bool,
                                    faults: Faults, inventory: seq<ArtifactFile>, ghost p: Publication, ghost from: nat)
      returns (r: Outcome, ghost turn: nat)
      requires IsFresh(p) && p.destination == destination && p.staged == staged && p.backup == backup
      requires present == (destination in p.start) && p.clean == clean
      requires Untouched(entries, p) && Phased(history, from, |history|, p)
      requires staged in entries && HoldsExactly(entries[staged], p.files) && Describes(inventory, p.files)
      modifies this
      ensures Phased(history, from, turn, p) && Concluded(r, entries, turn, history, p)
      ensures r.Success? ==> backup !in entries && staged !in entries
      ensures r.Success? && destination in p.start ==> clean
      ensures faults == NO_FAULTS ==> (r.Success? <==> destination !in p.start || clean)
    {
      hide Phased, HoldsExactly, PreviousIntact, OthersKept, Untouched, Describes;
      r, turn := PublishStagedArtifacts(destination, staged, backup, present, clean, faults, inventory, p, from);
      ghost var now := entries;
      HandledStates(r, now, turn, history, faults, inventory, p);
      turn := DiscardStaged(staged, faults, p, from, turn);
      StagedIsGone(now, entries, p);
      assert SameAt(entries, now, destination) && SameAt(entries, now, backup);
    }
  }

  // ------------------------------------------------------------------------- staging, in facts

  /** The names of a publication differ; nothing was at the temporary ones. */
  ghost predicate IsFresh(p: Publication)
  {
    && p.destination != p.staged && p.destination != p.backup && p.staged != p.backup
    && p.staged !in p.start && p.backup !in p.start
  }

  /** Nothing has changed except for the staging directory. */
  ghost predicate Untouched(s: State, p: Publication)
  {
    OthersKept(s, p) && SameAt(s, p.start, p.destination) && p.backup !in s
  }

  ghost predicate NoConflicts(files: seq<GeneratedFile>)
  {
    forall i, j :: 0 <= i < j < |files| ==> !Conflict(files[i].path, files[j].path)
  }

  predicate Blocked(files: map<string, FileNode>, path: string)
  {
    exists other :: other in files && Conflict(other, path)
  }

  /** An inventory in path order with exactly the generated files. */
  ghost predicate Describes(inventory: seq<ArtifactFile>, files: seq<GeneratedFile>)
  {
    && SortedBy(inventory, ArtifactPath) && DistinctKeys(inventory, ArtifactPath)
    && (forall artifact :: artifact in inventory <==> exists file :: file in files && InventoryOf(file) == artifact)
  }

  lemma NothingWritten(files: seq<GeneratedFile>)
    requires files == []
    ensures HoldsExactly(EMPTY_DIRECTORY, files) && NoConflicts(files)
  {
  }

  lemma BundleIsDirectory(node: Node, files: seq<GeneratedFile>)
    requires HoldsExactly(node, files)
    ensures node.Directory?
  {
  }

  lemma FileWritten(files: seq<GeneratedFile>, k: nat, node: Node)
    requires k < |files| && DistinctKeys(files, FilePath) && HoldsExactly(node, files[..k]) && NoConflicts(files[..k])
    ensures HoldsExactly(node.(files := node.files[files[k].path := Regular(files[k].data)]), files[..k + 1])
    ensures Blocked(node.files, files[k].path) ==> !NoConflicts(files)
    ensures !Blocked(node.files, files[k].path) ==> NoConflicts(files[..k + 1])
  {
    hide Conflict, HoldsExactly, Blocked, NoConflicts;
    forall i | 0 <= i < k
      ensures files[i].path != files[k].path
    {
      assert FilePath(files[i]) != FilePath(files[k]);
    }
    FileAdded(files, k, node);
    BlockedMeaning(files, k, node);
    ConflictFound(files, k);
  }

  lemma FileAdded(files: seq<GeneratedFile>, k: nat, node: Node)
    requires k < |files| && HoldsExactly(node, files[..k])
    requires forall i :: 0 <= i < k ==> files[i].path != files[k].path
    ensures HoldsExactly(node.(files := node.files[files[k].path := Regular(files[k].data)]), files[..k + 1])
  {
    assert files[..k + 1] == files[..k] + [files[k]];
  }

  lemma BlockedMeaning(files: seq<GeneratedFile>, k: nat, node: Node)
    requires k < |files| && HoldsExactly(node, files[..k])
    ensures Blocked(node.files, files[k].path) <==> exists i :: 0 <= i < k && Conflict(files[i].path, files[k].path)
  {
    hide Conflict;
    if other :| other in node.files && Conflict(other, files[k].path) {
      var file :| file in files[..k] && file.path == other;
      var i :| 0 <= i < k && files[i] == file;
      assert Conflict(files[i].path, files[k].path);
    }
    if i :| 0 <= i < k && Conflict(files[i].path, files[k].path) {
      assert files[i] in files[..k];
    }
  }

  lemma ConflictFound(files: seq<GeneratedFile>, k: nat)
    requires k < |files| && NoConflicts(files[..k])
    ensures var found := exists i :: 0 <= i < k && Conflict(files[i].path, files[k].path);
            (found ==> !NoConflicts(files)) && (!found ==> NoConflicts(files[..k + 1]))
  {
    hide Conflict;
    assert files[..k + 1] == files[..k] + [files[k]];
    assert forall i :: 0 <= i < k ==> files[..k][i] == files[i] == files[..k + 1][i];
  }

  lemma StagedIsFree(s: State, t: State, p: Publication)
    requires IsFresh(p) && Untouched(s, p) && forall name :: name != p.staged ==> SameAt(t, s, name)
    ensures Untouched(t, p) && PreviousIntact(t, p) && PreviousIntact(s, p)
  {
    assert SameAt(t, s, p.destination) && SameAt(t, s, p.backup);
    forall name | name != p.destination && name != p.staged && name != p.backup
      ensures SameAt(t, p.start, name)
    {
      assert SameAt(t, s, name) && SameAt(s, p.start, name);
    }
  }

  lemma StagingKeeps(s: State, p: Publication, node: Node)
    requires IsFresh(p) && Untouched(s, p)
    ensures Untouched(s[p.staged := node], p) && Untouched(s - {p.staged}, p)
    ensures PreviousIntact(s, p) && PreviousIntact(s[p.staged := node], p) && PreviousIntact(s - {p.staged}, p)
  {
    StagedIsFree(s, s[p.staged := node], p);
    StagedIsFree(s, s - {p.staged}, p);
  }

  lemma StillIntact(history: seq<State>, from: nat, p: Publication, s: State)
    requires Phased(history, from, |history|, p) && PreviousIntact(s, p)
    ensures Phased(history + [s], from, |history| + 1, p)
  {
  }

  lemma TurnInRange(history: seq<State>, from: nat, turn: nat, p: Publication)
    requires Phased(history, from, turn, p)
    ensures from <= turn <= |history|
  {
  }

  lemma StillPublished(history: seq<State>, from: nat, turn: nat, p: Publication, s: State)
    requires Phased(history, from, turn, p) && Published(s, p)
    ensures Phased(history + [s], from, turn, p)
  {
  }

  /** `generatedArtifactInventory`. */
  method GeneratedArtifactInventory(formats: Formats, files: seq<GeneratedFile>)
    returns (inventory: Option<seq<ArtifactFile>>)
    ensures inventory.Some? <==>
              DistinctKeys(files, FilePath) && forall file :: file in files ==> formats.path(file.path)
    ensures inventory.Some? ==> Describes(inventory.value, files)
  {
    hide DistinctKeys, SortedBy;
    var listed: seq<ArtifactFile>, seen: set<string> := [], {};
    NoKeys(files[..0], FilePath);
    for k := 0 to |files|
      invariant DistinctKeys(files[..k], FilePath)
      invariant forall x :: x in seen <==> exists i :: 0 <= i < k && FilePath(files[i]) == x
      invariant forall i :: 0 <= i < k ==> formats.path(files[i].path)
      invariant |listed| == k && forall i :: 0 <= i < k ==> listed[i] == InventoryOf(files[i])
    {
      var file := files[k];
      assert file in files;
      SeenDecides(files, FilePath, k, seen);
      if !formats.path(file.path) || file.path in seen {
        return None;
      }
      seen, listed := seen + {file.path}, listed + [InventoryOf(file)];
    }
    assert files[..|files|] == files;
    InventoryDescribes(listed, files);
    var sorted := Sort(listed, ArtifactPath);
    SameElements(sorted, listed);
    DistinctKeysOfPermutation(listed, sorted, ArtifactPath);
    return Some(sorted);
  }

  lemma InventoryDescribes(listed: seq<ArtifactFile>, files: seq<GeneratedFile>)
    requires DistinctKeys(files, FilePath)
    requires |listed| == |files| && forall i :: 0 <= i < |files| ==> listed[i] == InventoryOf(files[i])
    ensures DistinctKeys(listed, ArtifactPath)
    ensures forall artifact :: artifact in listed <==> exists file :: file in files && InventoryOf(file) == artifact
  {
  }

  // --------------------------------------------------------------------- replacement, in facts

  /** The previous output is in the backup and nowhere else. */
  ghost predicate MovedAway(s: State, p: Publication)
  {
    && OthersKept(s, p) && p.clean && p.destination in p.start && p.destination !in s
    && p.backup in s && s[p.backup] == Directory(map[], Some(p.start[p.destination]))
  }

  /** What an attempt to move the staged bundle in leaves behind. */
  ghost predicate HandledMove(r: Outcome, s: State, faults: Faults, inventory: seq<ArtifactFile>, p: Publication)
  {
    if !faults.moveIn then
      Published(s, p) && p.staged !in s && (if faults.discardBackup then r == BackupNotRemoved
                                            else r == Success(inventory) && p.backup !in s)
    else if faults.restore then r == NotRestored && MovedAway(s, p)
    else r == NotPublished && OthersKept(s, p) && SameAt(s, p.start, p.destination)
  }

  lemma MoveInKeeps(s: State, p: Publication)
    requires IsFresh(p) && MovedAway(s, p) && p.staged in s && HoldsExactly(s[p.staged], p.files)
    ensures PreviousIntact(s, p) && Published((s - {p.staged})[p.destination := s[p.staged]], p)
  {
    hide HoldsExactly;
    var t := (s - {p.staged})[p.destination := s[p.staged]];
    forall name | name != p.destination && name != p.staged && name != p.backup
      ensures SameAt(t, p.start, name)
    {
      assert SameAt(s, p.start, name);
    }
  }

  lemma MoveBackKeeps(s: State, p: Publication)
    requires IsFresh(p) && MovedAway(s, p)
    ensures var t := s[p.backup := EMPTY_DIRECTORY][p.destination := p.start[p.destination]];
            PreviousIntact(t, p) && SameAt(t, p.start, p.destination)
  {
    var t := s[p.backup := EMPTY_DIRECTORY][p.destination := p.start[p.destination]];
    forall name | name != p.destination && name != p.staged && name != p.backup
      ensures SameAt(t, p.start, name)
    {
      assert SameAt(s, p.start, name);
    }
  }

  lemma BackupIsFree(s: State, p: Publication, t: State)
    requires IsFresh(p) && OthersKept(s, p) && SameAt(s, p.start, p.destination)
    requires forall name :: name != p.backup ==> SameAt(t, s, name)
    ensures OthersKept(t, p) && SameAt(t, p.start, p.destination) && PreviousIntact(t, p) && PreviousIntact(s, p)
  {
    assert SameAt(t, s, p.destination);
    forall name | name != p.destination && name != p.staged && name != p.backup
      ensures SameAt(t, p.start, name)
    {
      assert SameAt(s, p.start, name) && SameAt(t, s, name);
    }
  }

  lemma BackupIsGone(s: State, p: Publication, t: State)
    requires IsFresh(p) && Published(s, p) && forall name :: name != p.backup ==> SameAt(t, s, name)
    ensures Published(t, p)
  {
    hide HoldsExactly;
    assert SameAt(t, s, p.destination);
    forall name | name != p.destination && name != p.staged && name != p.backup
      ensures SameAt(t, p.start, name)
    {
      assert SameAt(s, p.start, name) && SameAt(t, s, name);
    }
  }

  lemma FirstPublished(history: seq<State>, from: nat, p: Publication, s: State)
    requires Phased(history, from, |history|, p) && Published(s, p)
    ensures Phased(history + [s], from, |history|, p)
  {
  }

  /** What the whole publication of a staged bundle leaves behind. */
  ghost predicate Handled(r: Outcome, s: State, turn: nat, history: seq<State>, faults: Faults,
                          inventory: seq<ArtifactFile>, p: Publication)
  {
    match r
    case Success(files) =>
      Published(s, p) && turn < |history| && files == inventory && p.staged !in s && p.backup !in s
    case BackupNotRemoved => Published(s, p) && turn < |history| && p.staged !in s && faults.discardBackup
    case NotRestored => MovedAway(s, p) && turn == |history| && faults.moveIn && faults.restore
    case NotPublished =>
      && OthersKept(s, p) && SameAt(s, p.start, p.destination) && turn == |history|
      && (if p.destination in p.start then faults.backup || faults.moveAway || faults.moveIn else faults.publish)
    case OutputDiffers => Untouched(s, p) && turn == |history| && p.destination in p.start && !p.clean
    case _ => false
  }

  lemma BackupIsMade(s: State, p: Publication)
    requires IsFresh(p) && Untouched(s, p)
    ensures PreviousIntact(s, p) && PreviousIntact(s[p.backup := EMPTY_DIRECTORY], p)
    ensures p.backup !in s && (p.destination in s <==> p.destination in p.start)
    ensures OthersKept(s[p.backup := EMPTY_DIRECTORY], p)
    ensures OthersKept(s, p) && SameAt(s, p.start, p.destination)
  {
    BackupIsFree(s, p, s[p.backup := EMPTY_DIRECTORY]);
  }

  lemma MovedBelow(s: State, p: Publication)
    requires IsFresh(p) && p.clean && p.destination in p.start
    requires OthersKept(s, p) && SameAt(s, p.start, p.destination) && p.backup in s && s[p.backup] == EMPTY_DIRECTORY
    ensures PreviousIntact(s, p)
    ensures MovedAway((s - {p.destination})[p.backup := Directory(map[], Some(s[p.destination]))], p)
    ensures PreviousIntact((s - {p.destination})[p.backup := Directory(map[], Some(s[p.destination]))], p)
  {
    var t := (s - {p.destination})[p.backup := Directory(map[], Some(s[p.destination]))];
    forall name | name != p.destination && name != p.staged && name != p.backup
      ensures SameAt(t, p.start, name)
    {
      assert SameAt(s, p.start, name);
    }
  }

  lemma FirstOutput(s: State, p: Publication)
    requires IsFresh(p) && Untouched(s, p) && p.destination !in p.start
    requires p.staged in s && HoldsExactly(s[p.staged], p.files)
    ensures Published((s - {p.staged})[p.destination := s[p.staged]], p)
  {
    hide HoldsExactly;
    var t := (s - {p.staged})[p.destination := s[p.staged]];
    forall name | name != p.destination && name != p.staged && name != p.backup
      ensures SameAt(t, p.start, name)
    {
      assert SameAt(s, p.start, name);
    }
  }

  lemma CommitHandled(r: Outcome, s: State, turn: nat, history: seq<State>, faults: Faults,
                      inventory: seq<ArtifactFile>, p: Publication)
    requires p.destination in p.start && HandledMove(r, s, faults, inventory, p)
    requires if faults.moveIn then turn == |history| else turn < |history|
    ensures Handled(r, s, turn, history, faults, inventory, p)
  {
  }

  // ------------------------------------------------------------------------ publication, in facts

  lemma StagedIsGone(s: State, t: State, p: Publication)
    requires IsFresh(p) && forall name :: name != p.staged ==> SameAt(t, s, name)
    ensures OthersKept(s, p) ==> OthersKept(t, p)
    ensures PreviousIntact(s, p) ==> PreviousIntact(t, p)
    ensures Published(s, p) ==> Published(t, p)
    ensures MovedAway(s, p) ==> MovedAway(t, p)
    ensures SameAt(s, p.start, p.destination) ==> SameAt(t, p.start, p.destination)
  {
    hide HoldsExactly;
    assert SameAt(t, s, p.destination) && SameAt(t, s, p.backup);
    if OthersKept(s, p) {
      forall name | name != p.destination && name != p.staged && name != p.backup
        ensures SameAt(t, p.start, name)
      {
        assert SameAt(s, p.start, name) && SameAt(t, s, name);
      }
    }
  }

  /** What a caller can rely on after each outcome. */
  ghost predicate Concluded(r: Outcome, s: State, turn: nat, history: seq<State>, p: Publication)
  {
    && OthersKept(s, p)
    && match r
       case Success(inventory) =>
         && p.destination in s && HoldsExactly(s[p.destination], p.files) && Describes(inventory, p.files)
         && (p.destination in p.start && !p.clean ==> SameAt(s, p.start, p.destination))
       case BackupNotRemoved => p.destination in s && HoldsExactly(s[p.destination], p.files)
       case NotRestored => MovedAway(s, p) && turn == |history|
       case _ => SameAt(s, p.start, p.destination) && turn == |history|
  }

  /** The generated files are a bundle that its own manifest describes. */
  ghost predicate SelfDescribing(formats: Formats, files: seq<GeneratedFile>)
  {
    exists node, inventory :: HoldsExactly(node, files) && IsVerified(formats, node, inventory)
  }

  /** What publishing demands if no step fails. */
  ghost predicate Publishable(formats: Formats, p: Publication)
  {
    && CanStage(formats, p.files) && SelfDescribing(formats, p.files)
    && (p.destination in p.start ==>
          && (exists inventory :: IsVerified(formats, p.start[p.destination], inventory))
          && (p.clean || HoldsExactly(p.start[p.destination], p.files)))
  }

  lemma NothingHappened(history: seq<State>, p: Publication)
    requires p.staged !in p.start && p.backup !in p.start
    ensures Phased(history, |history|, |history|, p) && Untouched(p.start, p) && OthersKept(p.start, p)
  {
  }

  lemma UntouchedMeaning(s: State, p: Publication)
    requires Untouched(s, p)
    ensures OthersKept(s, p) && SameAt(s, p.start, p.destination) && p.backup !in s && PreviousIntact(s, p)
  {
  }

  lemma BundleIsPlain(node: Node, files: seq<GeneratedFile>)
    requires HoldsExactly(node, files)
    ensures node.Directory? && node.held == None
  {
  }

  /** There is one bundle with these files, so that it alone decides whether they describe themselves. */
  lemma OnlyBundle(formats: Formats, node: Node, files: seq<GeneratedFile>)
    requires HoldsExactly(node, files)
    ensures SelfDescribing(formats, files) <==> exists inventory :: IsVerified(formats, node, inventory)
  {
    hide IsVerified;
    forall other | HoldsExactly(other, files)
      ensures other == node
    {
      assert other.files == node.files;
    }
  }

  /** A verified directory has the staged inventory exactly if it has the staged files. */
  lemma SameInventory(formats: Formats, node: Node, previous: seq<ArtifactFile>, inventory: seq<ArtifactFile>,
                      files: seq<GeneratedFile>)
    requires IsVerified(formats, node, previous) && Describes(inventory, files)
    ensures previous == inventory <==> HoldsExactly(node, files)
  {
    hide SortedBy, DistinctKeys, ManifestInventory;
    if previous == inventory {
      SameFiles(node, inventory, files);
    }
    if HoldsExactly(node, files) {
      forall artifact
        ensures artifact in previous <==> artifact in inventory
      {
        SameArtifact(node, previous, files, artifact);
      }
      SortedByElements(previous, inventory, ArtifactPath);
    }
  }

  lemma SameFiles(node: Node, inventory: seq<ArtifactFile>, files: seq<GeneratedFile>)
    requires node.Directory? && node.held == None && Conforms(node.files, inventory) && Describes(inventory, files)
    ensures HoldsExactly(node, files)
  {
    hide SortedBy, DistinctKeys;
    forall file | file in files
      ensures file.path in node.files && node.files[file.path] == Regular(file.data)
    {
      assert InventoryOf(file) in inventory;
    }
  }

  lemma SameArtifact(node: Node, previous: seq<ArtifactFile>, files: seq<GeneratedFile>, artifact: ArtifactFile)
    requires HoldsExactly(node, files) && Conforms(node.files, previous)
    ensures artifact in previous <==> exists file :: file in files && InventoryOf(file) == artifact
  {
    if artifact in previous {
      assert artifact.path in node.files;
      var file :| file in files && file.path == artifact.path;
      assert InventoryOf(file) == artifact;
    }
    if file :| file in files && InventoryOf(file) == artifact {
      assert file.path in node.files;
      var other :| other in previous && other.path == file.path;
      assert other == artifact;
    }
  }

  lemma HandledStates(r: Outcome, s: State, turn: nat, history: seq<State>, faults: Faults,
                      inventory: seq<ArtifactFile>, p: Publication)
    requires Handled(r, s, turn, history, faults, inventory, p)
    ensures OthersKept(s, p)
    ensures if r.Success? || r.BackupNotRemoved? then Published(s, p) && turn < |history| && p.staged !in s
            else PreviousIntact(s, p) && turn == |history|
    ensures r.Success? || r.BackupNotRemoved? || r.NotRestored? || SameAt(s, p.start, p.destination)
  {
  }

  /** Wherever the process stops, there is a complete bundle, and without `clean` it is the previous one. */
  lemma EveryStateIsSafe(history: seq<State>, from: nat, turn: nat, p: Publication, k: nat)
    requires Phased(history, from, turn, p) && from <= k < |history| && p.destination in p.start
    ensures || SameAt(history[k], p.start, p.destination)
            || (p.backup in history[k] && history[k][p.backup] == Directory(map[], Some(p.start[p.destination])))
            || (p.destination in history[k] && HoldsExactly(history[k][p.destination], p.files))
    ensures !p.clean ==> SameAt(history[k], p.start, p.destination)
  {
  }
}
