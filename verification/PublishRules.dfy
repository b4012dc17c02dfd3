module PublishRules {
  // What a verified and a publishable bundle are (internal/compiler/publish.go,
  // internal/compiler/artifacts.go).

  import opened Lockfiles
  import opened Orders
  import opened Policies
  import opened Publish
  import opened Strings

  /** The files that the manifest of a directory accounts for: those it lists, and itself. */
  ghost predicate Accounts(formats: Formats, manifest: string, artifact: ArtifactFile)
  {
    || artifact == ArtifactFile("manifest.json", Sha256(manifest))
    || match formats.manifest(manifest)
       case Some(listed) => artifact in listed
       case None => false
  }

  /**
   A directory is verified exactly if it has a manifest that can be parsed and that accounts, together
   with itself, for every file once: by a valid path, with the digest of its content.
   */
  ghost predicate IsAccounted(formats: Formats, files: map<string, FileNode>)
  {
    && "manifest.json" in files && files["manifest.json"].Regular?
    && formats.manifest(files["manifest.json"].data).Some?
    && var manifest := files["manifest.json"].data;
       var listed := formats.manifest(manifest).value;
       && (forall i, j :: 0 <= i < j < |listed| ==> listed[i].path != listed[j].path)
       && (forall i :: 0 <= i < |listed| ==> listed[i].path != "manifest.json")
       && (forall path :: path in files <==> exists a :: Accounts(formats, manifest, a) && a.path == path)
       && (forall a :: Accounts(formats, manifest, a) ==>
             && formats.path(a.path)
             && a.path in files && files[a.path].Regular? && a.digest == Sha256(files[a.path].data))
  }

  lemma ManifestContains(formats: Formats, files: map<string, FileNode>, artifact: ArtifactFile)
    requires ManifestInventory(formats, files).Some?
    ensures artifact in ManifestInventory(formats, files).value <==>
            Accounts(formats, files["manifest.json"].data, artifact)
  {
  }

  lemma ManifestPathsDiffer(formats: Formats, files: map<string, FileNode>)
    requires ManifestInventory(formats, files).Some?
    ensures var listed := formats.manifest(files["manifest.json"].data).value;
            DistinctKeys(ManifestInventory(formats, files).value, ArtifactPath) <==>
            && (forall i, j :: 0 <= i < j < |listed| ==> listed[i].path != listed[j].path)
            && (forall i :: 0 <= i < |listed| ==> listed[i].path != "manifest.json")
  {
    var listed := formats.manifest(files["manifest.json"].data).value;
    var all := ManifestInventory(formats, files).value;
    assert all[|listed|].path == "manifest.json";
    assert forall i :: 0 <= i < |listed| ==> all[i] == listed[i];
    assert forall i, j :: 0 <= i < |all| && 0 <= j < |all| ==>
             (ArtifactPath(all[i]) == ArtifactPath(all[j]) <==> all[i].path == all[j].path);
  }

  /** With the entries of the manifest in any order, verification is what the manifest accounts for. */
  lemma AccountedMeaning(formats: Formats, files: map<string, FileNode>, inventory: seq<ArtifactFile>)
    requires ManifestInventory(formats, files).Some?
    requires multiset(inventory) == multiset(ManifestInventory(formats, files).value)
    ensures ValidInventory(formats, inventory) && Conforms(files, inventory) <==> IsAccounted(formats, files)
  {
    hide DistinctKeys, Accounts;
    var all, manifest := ManifestInventory(formats, files).value, files["manifest.json"].data;
    assert formats.manifest(manifest).Some?;
    hide ManifestInventory;
    SameElements(inventory, all);
    SameDistinctKeys(inventory, all, ArtifactPath);
    ManifestPathsDiffer(formats, files);
    forall a
      ensures a in inventory <==> Accounts(formats, manifest, a)
    {
      ManifestContains(formats, files, a);
    }
  }

  lemma VerifiedMeaning(formats: Formats, node: Node)
    ensures (exists inventory :: IsVerified(formats, node, inventory)) <==>
            node.Directory? && node.held == None && IsAccounted(formats, node.files)
  {
    hide DistinctKeys, SortedBy, ValidInventory, Conforms, SortBy;
    if node.Directory? && ManifestInventory(formats, node.files).Some? {
      hide IsAccounted;
      var all := ManifestInventory(formats, node.files).value;
      SortBySorts(all, ArtifactPath);
      AccountedMeaning(formats, node.files, SortBy(all, ArtifactPath));
      forall inventory | multiset(inventory) == multiset(all)
        ensures ValidInventory(formats, inventory) && Conforms(node.files, inventory) <==>
                IsAccounted(formats, node.files)
      {
        AccountedMeaning(formats, node.files, inventory);
      }
      assert IsVerified(formats, node, SortBy(all, ArtifactPath)) <==>
             node.held == None && IsAccounted(formats, node.files);
    }
  }

  /** An inventory tells path and digest of every generated file. */
  lemma InventoryMeaning(inventory: seq<ArtifactFile>, files: seq<GeneratedFile>)
    requires Describes(inventory, files)
    ensures forall file :: file in files ==> ArtifactFile(file.path, Sha256(file.data)) in inventory
    ensures forall a :: a in inventory ==>
              exists file :: file in files && a.path == file.path && a.digest == Sha256(file.data)
  {
    forall file | file in files
      ensures ArtifactFile(file.path, Sha256(file.data)) in inventory
    {
      assert InventoryOf(file) == ArtifactFile(file.path, Sha256(file.data));
    }
  }

  /** Files can be staged exactly if their paths are valid and none is repeated or below another. */
  lemma StagingMeaning(formats: Formats, files: seq<GeneratedFile>)
    ensures CanStage(formats, files) <==>
            && (forall file :: file in files ==> formats.path(file.path))
            && (forall i, j :: 0 <= i < |files| && 0 <= j < |files| && i != j ==>
                  files[i].path != files[j].path && !IsBelow(files[i].path, files[j].path))
  {
    hide IsBelow;
    forall a, b
      ensures Conflict(a, b) <==> IsBelow(a, b) || IsBelow(b, a)
    {
      ConflictMeaning(a, b);
    }
    hide Conflict;
    assert forall i, j :: 0 <= i < |files| && 0 <= j < |files| ==>
             (FilePath(files[i]) == FilePath(files[j]) <==> files[i].path == files[j].path);
  }

  ghost predicate IsBelow(path: string, dir: string)
  {
    exists rest: string :: path == dir + "/" + rest
  }

  lemma ConflictMeaning(a: string, b: string)
    ensures Conflict(a, b) <==> IsBelow(a, b) || IsBelow(b, a)
  {
    PrefixMeaning(a, b);
    PrefixMeaning(b, a);
  }

  lemma PrefixMeaning(path: string, dir: string)
    ensures HasPrefix(path, dir + "/") <==> IsBelow(path, dir)
  {
    if HasPrefix(path, dir + "/") {
      assert path == dir + "/" + path[|dir| + 1..];
    }
    if rest: string :| path == dir + "/" + rest {
      assert path[..|dir + "/"|] == dir + "/";
    }
  }
}
