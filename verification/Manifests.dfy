/** Relocating the manifests of a workspace into their copies (internal/compiler). */
module Manifests {
  // module_manifest.go and workspace_manifest.go, with the edits of golang.org/x/mod/modfile that they
  // make: what the rewritten manifest says, and when a rewriting loses directives or fails.

  import opened Orders
  import opened Policies
  import opened Workspaces

  datatype Relocation<T> =
    | Relocated(manifest: T) | RelativeDirectory | BrokenManifest | UncopiedPath | DuplicateCopies
    | OverlappingRuntime | MissingLine

  // ------------------------------------------------------------------------------ directives

  /**
   A replacement as the parsed manifest holds it, with the line that is printed for it. A removed
   directive stays in the list, emptied and without a line.
   */
  datatype Directive = Directive(replacement: Replacement, line: Option<Replacement>)

  const EMPTIED := Directive(Replacement("", "", "", ""), None)

  function Parsed(replacement: Replacement): Directive
  {
    Directive(replacement, Some(replacement))
  }

  function AllParsed(replacements: seq<Replacement>): seq<Directive>
  {
    seq(|replacements|, i requires 0 <= i < |replacements| => Parsed(replacements[i]))
  }

  /** What the formatted manifest says: the lines that are left. */
  function Lines(directives: seq<Directive>): seq<Replacement>
  {
    if |directives| == 0 then []
    else
      (match directives[0].line case Some(line) => [line] case None => []) + Lines(directives[1..])
  }

  /** An edit for a path without a version is for every directive of the path. */
  predicate IsFor(d: Directive, oldPath: string, oldVersion: string)
  {
    d.replacement.oldPath == oldPath && (oldVersion == "" || d.replacement.oldVersion == oldVersion)
  }

  /**
   `modfile.AddReplace` with a local path: the first directive it is for is rewritten, line and all, and
   the others are emptied. There is no result if one of them has no line, which the edit dereferences.
   */
  function AddReplace(directives: seq<Directive>, oldPath: string, oldVersion: string, newPath: string, need: bool)
    : (r: Option<seq<Directive>>)
    ensures r.Some? ==> |directives| <= |r.value|
  {
    if |directives| == 0 then
      var added := Replacement(oldPath, oldVersion, newPath, "");
      Some(if need then [Parsed(added)] else [])
    else
      var d := directives[0];
      if !IsFor(d, oldPath, oldVersion) then
        Behind(d, AddReplace(directives[1..], oldPath, oldVersion, newPath, need))
      else if d.line.None? then None
      else
        Behind(if need then Rewritten(d, oldPath, oldVersion, newPath) else EMPTIED,
               AddReplace(directives[1..], oldPath, oldVersion, newPath, false))
  }

  function Rewritten(d: Directive, oldPath: string, oldVersion: string, newPath: string): Directive
  {
    Directive(d.replacement.(newPath := newPath, newVersion := ""),
              Some(Replacement(oldPath, oldVersion, newPath, "")))
  }

  function Behind(d: Directive, rest: Option<seq<Directive>>): Option<seq<Directive>>
  {
    if rest.Some? then Some([d] + rest.value) else None
  }

  lemma {:induction false} AddReplaceRest(directives: seq<Directive>, oldPath: string, oldVersion: string,
                                          newPath: string)
    requires forall d :: d in directives && IsFor(d, oldPath, oldVersion) ==> d.line.Some?
    ensures var r := AddReplace(directives, oldPath, oldVersion, newPath, false);
            && r.Some? && |r.value| == |directives|
            && forall i :: 0 <= i < |directives| ==>
                 r.value[i] == if IsFor(directives[i], oldPath, oldVersion) then EMPTIED else directives[i]
  {
    hide IsFor;
    if |directives| == 0 {
    } else {
      assert directives[0] in directives;
      AddReplaceRest(directives[1..], oldPath, oldVersion, newPath);
    }
  }

  /** The edit, directive by directive. */
  lemma {:induction false} AddReplaceEach(directives: seq<Directive>, oldPath: string, oldVersion: string,
                                          newPath: string, first: nat)
    requires forall d :: d in directives && IsFor(d, oldPath, oldVersion) ==> d.line.Some?
    requires first < |directives| && IsFor(directives[first], oldPath, oldVersion)
    requires forall i :: 0 <= i < first ==> !IsFor(directives[i], oldPath, oldVersion)
    ensures var r := AddReplace(directives, oldPath, oldVersion, newPath, true);
            && r.Some? && |r.value| == |directives|
            && forall i :: 0 <= i < |directives| ==>
                 r.value[i] == if i == first then Rewritten(directives[i], oldPath, oldVersion, newPath)
                               else if IsFor(directives[i], oldPath, oldVersion) then EMPTIED
                               else directives[i]
  {
    hide IsFor, Rewritten;
    assert directives[0] in directives;
    if first == 0 {
      AddReplaceRest(directives[1..], oldPath, oldVersion, newPath);
    } else {
      AddReplaceEach(directives[1..], oldPath, oldVersion, newPath, first - 1);
    }
  }

  /** Meeting a directive without a line leaves the edit without a result. */
  lemma {:induction false} AddReplaceFails(directives: seq<Directive>, oldPath: string, oldVersion: string,
                                           newPath: string, need: bool, i: nat)
    requires i < |directives| && IsFor(directives[i], oldPath, oldVersion) && directives[i].line.None?
    ensures AddReplace(directives, oldPath, oldVersion, newPath, need) == None
  {
    hide IsFor;
    if i == 0 {
    } else if IsFor(directives[0], oldPath, oldVersion) {
      AddReplaceFails(directives[1..], oldPath, oldVersion, newPath, false, i - 1);
    } else {
      AddReplaceFails(directives[1..], oldPath, oldVersion, newPath, need, i - 1);
    }
  }

  // --------------------------------------------------------------------------------- copies

  /** The path has an absolute copy. */
  predicate HasCopy(paths: Paths, path: string, dir: string, relocations: map<string, string>)
  {
    Resolve(paths, dir, path) in relocations && paths.isAbs(relocations[Resolve(paths, dir, path)])
  }

  /** `copiedWorkspacePath`. */
  function CopiedWorkspacePath(paths: Paths, path: string, dir: string, relocations: map<string, string>): string
    requires HasCopy(paths, path, dir, relocations)
  {
    paths.clean(relocations[Resolve(paths, dir, path)])
  }

  ghost predicate ReplacementsHaveCopies(paths: Paths, replacements: seq<Replacement>, dir: string,
                                         relocations: map<string, string>)
  {
    forall i :: 0 <= i < |replacements| && replacements[i].newVersion == "" ==>
      HasCopy(paths, replacements[i].newPath, dir, relocations)
  }

  /** A local replacement points to its copy; everything else is as it was. */
  predicate IsRelocated(paths: Paths, before: Replacement, after: Replacement, dir: string,
                        relocations: map<string, string>)
  {
    if before.newVersion == "" then
      HasCopy(paths, before.newPath, dir, relocations) &&
      after == before.(newPath := CopiedWorkspacePath(paths, before.newPath, dir, relocations))
    else after == before
  }

  ghost predicate AreRelocated(paths: Paths, before: seq<Replacement>, after: seq<Replacement>, dir: string,
                               relocations: map<string, string>)
  {
    |after| == |before| &&
    forall i :: 0 <= i < |before| ==> IsRelocated(paths, before[i], after[i], dir, relocations)
  }

  // -------------------------------------------------------------------------- the loop, in steps

  /** One round: a local replacement is rewritten through `AddReplace`. */
  function Round(paths: Paths, directives: seq<Directive>, i: nat, dir: string, relocations: map<string, string>)
    : (r: Relocation<seq<Directive>>)
    requires i < |directives|
    ensures r.Relocated? ==> |directives| <= |r.manifest|
  {
    var x := directives[i].replacement;
    if x.newVersion != "" then Relocated(directives)
    else if !HasCopy(paths, x.newPath, dir, relocations) then UncopiedPath
    else
      match AddReplace(directives, x.oldPath, x.oldVersion,
                       CopiedWorkspacePath(paths, x.newPath, dir, relocations), true)
      case None => MissingLine
      case Some(edited) => Relocated(edited)
  }

  /** The first `k` rounds; the list does not shrink, so that there is a round for each directive. */
  function Rounds(paths: Paths, replacements: seq<Replacement>, k: nat, dir: string, relocations: map<string, string>)
    : Relocation<seq<Directive>>
    requires k <= |replacements|
    ensures Rounds(paths, replacements, k, dir, relocations).Relocated? ==>
              |replacements| <= |Rounds(paths, replacements, k, dir, relocations).manifest|
  {
    if k == 0 then Relocated(AllParsed(replacements))
    else
      var before := Rounds(paths, replacements, k - 1, dir, relocations);
      if before.Relocated? then Round(paths, before.manifest, k - 1, dir, relocations) else before
  }

  function RelocateAll(paths: Paths, replacements: seq<Replacement>, dir: string, relocations: map<string, string>)
    : Relocation<seq<Replacement>>
  {
    match Rounds(paths, replacements, |replacements|, dir, relocations)
    case Relocated(directives) => Relocated(Lines(directives))
    case UncopiedPath => UncopiedPath
    case _ => MissingLine
  }

  // --------------------------------------------------------------------- what the loop leads to

  /** An edit for `x` is also for `y`. */
  predicate Covers(x: Replacement, y: Replacement)
  {
    x.oldPath == y.oldPath && (x.oldVersion == "" || x.oldVersion == y.oldVersion)
  }

  /** Local replacements are for no other directive. */
  ghost predicate Separate(replacements: seq<Replacement>)
  {
    forall i, j :: 0 <= i < |replacements| && 0 <= j < |replacements| && i != j && replacements[i].newVersion == "" ==>
      !Covers(replacements[i], replacements[j])
  }

  /** The first `k` local replacements are for no later directive. */
  ghost predicate NoneAhead(replacements: seq<Replacement>, k: nat)
  {
    forall i, j :: 0 <= i < k && i < j < |replacements| && replacements[i].newVersion == "" ==>
      !Covers(replacements[i], replacements[j])
  }

  /** Parsed replacements name a module. */
  ghost predicate Named(replacements: seq<Replacement>)
  {
    forall i :: 0 <= i < |replacements| ==> replacements[i].oldPath != ""
  }

  /** A directive after some rounds: emptied, or still of its module; untouched if its round is to come. */
  predicate IsLeft(d: Directive, x: Replacement, done: bool)
  {
    || d == EMPTIED
    || (d.line.Some? && d.replacement.oldPath == x.oldPath && d.replacement.oldVersion == x.oldVersion &&
        (done || d == Parsed(x)))
  }

  ghost predicate AreLeft(directives: seq<Directive>, replacements: seq<Replacement>, k: nat)
  {
    |directives| == |replacements| &&
    forall j :: 0 <= j < |directives| ==> IsLeft(directives[j], replacements[j], j < k)
  }

  lemma ForMeansCovers(d: Directive, x: Replacement, y: Replacement, done: bool)
    requires IsLeft(d, y, done) && x.oldPath != "" && y.oldPath != ""
    ensures IsFor(d, x.oldPath, x.oldVersion) <==> d != EMPTIED && Covers(x, y)
    ensures IsFor(d, x.oldPath, x.oldVersion) ==> d.line.Some?
  {
  }

  /** What a round that succeeds does: it edits its own directive, or another one before it, and empties the rest. */
  lemma RoundEdits(paths: Paths, replacements: seq<Replacement>, directives: seq<Directive>, i: nat, dir: string,
                   relocations: map<string, string>) returns (first: nat)
    requires Named(replacements) && AreLeft(directives, replacements, i) && i < |replacements|
    requires directives[i] == Parsed(replacements[i]) && replacements[i].newVersion == ""
    requires HasCopy(paths, replacements[i].newPath, dir, relocations)
    ensures first <= i && directives[first] != EMPTIED && Covers(replacements[i], replacements[first])
    ensures var x := replacements[i];
            var copy := CopiedWorkspacePath(paths, x.newPath, dir, relocations);
            var r := Round(paths, directives, i, dir, relocations);
            && r.Relocated? && |r.manifest| == |directives|
            && forall j :: 0 <= j < |directives| ==>
                 r.manifest[j] == if j == first then Rewritten(directives[j], x.oldPath, x.oldVersion, copy)
                                  else if Covers(x, replacements[j]) then EMPTIED
                                  else directives[j]
  {
    hide IsLeft, IsFor, Covers, Rewritten, HasCopy;
    var x := replacements[i];
    forall j | 0 <= j < |directives|
      ensures IsFor(directives[j], x.oldPath, x.oldVersion) <==> directives[j] != EMPTIED && Covers(x, replacements[j])
      ensures IsFor(directives[j], x.oldPath, x.oldVersion) ==> directives[j].line.Some?
    {
      ForMeansCovers(directives[j], x, replacements[j], j < i);
    }
    CoversItself(x);
    first := FirstFor(directives, x.oldPath, x.oldVersion, i);
    AddReplaceEach(directives, x.oldPath, x.oldVersion, CopiedWorkspacePath(paths, x.newPath, dir, relocations), first);
  }

  lemma CoversItself(x: Replacement)
    ensures Covers(x, x)
  {
  }

  lemma {:induction false} FirstFor(directives: seq<Directive>, oldPath: string, oldVersion: string, i: nat)
    returns (first: nat)
    requires i < |directives| && IsFor(directives[i], oldPath, oldVersion)
    ensures first <= i && IsFor(directives[first], oldPath, oldVersion)
    ensures forall j :: 0 <= j < first ==> !IsFor(directives[j], oldPath, oldVersion)
    decreases i
  {
    if j :| 0 <= j < i && IsFor(directives[j], oldPath, oldVersion) {
      first := FirstFor(directives, oldPath, oldVersion, j);
    } else {
      first := i;
    }
  }

  /** The round of an emptied directive looks for a copy of the manifest's own directory, and fails either way. */
  lemma EmptiedRoundFails(paths: Paths, directives: seq<Directive>, i: nat, dir: string,
                          relocations: map<string, string>)
    requires i < |directives| && directives[i] == EMPTIED
    ensures Round(paths, directives, i, dir, relocations) ==
            if HasCopy(paths, "", dir, relocations) then MissingLine else UncopiedPath
  {
    hide HasCopy;
    if HasCopy(paths, "", dir, relocations) {
      AddReplaceFails(directives, "", "", CopiedWorkspacePath(paths, "", dir, relocations), true, i);
    }
  }

  /** A round leaves what it should, and nothing that is emptied comes back. */
  lemma RoundLeaves(paths: Paths, replacements: seq<Replacement>, directives: seq<Directive>, i: nat, dir: string,
                    relocations: map<string, string>)
    requires Named(replacements) && AreLeft(directives, replacements, i) && i < |replacements|
    requires Round(paths, directives, i, dir, relocations).Relocated?
    ensures directives[i] == Parsed(replacements[i])
    ensures var after := Round(paths, directives, i, dir, relocations).manifest;
            && AreLeft(after, replacements, i + 1)
            && (forall j :: 0 <= j < |directives| && directives[j] == EMPTIED ==> after[j] == EMPTIED)
            && (replacements[i].newVersion == "" ==> HasCopy(paths, replacements[i].newPath, dir, relocations))
  {
    hide HasCopy;
    assert IsLeft(directives[i], replacements[i], false);
    if directives[i] == EMPTIED {
      EmptiedRoundFails(paths, directives, i, dir, relocations);
    }
    if replacements[i].newVersion == "" {
      var first := RoundEdits(paths, replacements, directives, i, dir, relocations);
    }
  }

  lemma RoundsStop(paths: Paths, replacements: seq<Replacement>, k: nat, n: nat, dir: string,
                   relocations: map<string, string>)
    requires k <= n <= |replacements| && !Rounds(paths, replacements, k, dir, relocations).Relocated?
    ensures Rounds(paths, replacements, n, dir, relocations) == Rounds(paths, replacements, k, dir, relocations)
    decreases n
  {
    if k == n {
    } else {
      RoundsStop(paths, replacements, k, n - 1, dir, relocations);
    }
  }

  lemma {:induction false} RoundsLeave(paths: Paths, replacements: seq<Replacement>, k: nat, dir: string,
                                       relocations: map<string, string>)
    requires Named(replacements) && k <= |replacements|
    requires Rounds(paths, replacements, k, dir, relocations).Relocated?
    ensures AreLeft(Rounds(paths, replacements, k, dir, relocations).manifest, replacements, k)
  {
    hide Round;
    if k == 0 {
    } else {
      RoundsLeave(paths, replacements, k - 1, dir, relocations);
      var before := Rounds(paths, replacements, k - 1, dir, relocations).manifest;
      RoundLeaves(paths, replacements, before, k - 1, dir, relocations);
    }
  }

  lemma {:induction false} EmptiedStays(paths: Paths, replacements: seq<Replacement>, k: nat, n: nat, j: nat,
                                        dir: string, relocations: map<string, string>)
    requires Named(replacements) && k <= n <= |replacements| && j < |replacements|
    requires Rounds(paths, replacements, k, dir, relocations).Relocated?
    requires Rounds(paths, replacements, n, dir, relocations).Relocated?
    requires j < |Rounds(paths, replacements, k, dir, relocations).manifest|
    requires Rounds(paths, replacements, k, dir, relocations).manifest[j] == EMPTIED
    ensures j < |Rounds(paths, replacements, n, dir, relocations).manifest|
    ensures Rounds(paths, replacements, n, dir, relocations).manifest[j] == EMPTIED
    decreases n
  {
    hide Round, AreLeft;
    if k == n {
    } else {
      EmptiedStays(paths, replacements, k, n - 1, j, dir, relocations);
      RoundsLeave(paths, replacements, n - 1, dir, relocations);
      var before := Rounds(paths, replacements, n - 1, dir, relocations).manifest;
      SameLength(before, replacements, n - 1);
      RoundLeaves(paths, replacements, before, n - 1, dir, relocations);
      SameLength(Round(paths, before, n - 1, dir, relocations).manifest, replacements, n);
    }
  }

  lemma SameLength(directives: seq<Directive>, replacements: seq<Replacement>, k: nat)
    requires AreLeft(directives, replacements, k)
    ensures |directives| == |replacements|
  {
  }

  /** How the loop ends once it has emptied a directive whose round is to come. */
  function Stuck(paths: Paths, dir: string, relocations: map<string, string>): Relocation<seq<Directive>>
  {
    if HasCopy(paths, "", dir, relocations) then MissingLine else UncopiedPath
  }

  /** An emptied directive ahead ends the loop at its round, or before. */
  lemma {:induction false} EmptiedAheadFails(paths: Paths, replacements: seq<Replacement>, k: nat, j: nat, dir: string,
                                             relocations: map<string, string>)
    requires Named(replacements) && ReplacementsHaveCopies(paths, replacements, dir, relocations)
    requires k <= j < |replacements| && Rounds(paths, replacements, k, dir, relocations).Relocated?
    requires |Rounds(paths, replacements, k, dir, relocations).manifest| == |replacements|
    requires Rounds(paths, replacements, k, dir, relocations).manifest[j] == EMPTIED
    ensures RoundsEnd(paths, replacements, dir, relocations) == Stuck(paths, dir, relocations)
    decreases j - k
  {
    hide Round, HasCopy, AreLeft, Stuck;
    var now := Rounds(paths, replacements, k, dir, relocations).manifest;
    RoundsLeave(paths, replacements, k, dir, relocations);
    if now[k] == EMPTIED {
      EmptiedRoundFails(paths, now, k, dir, relocations);
      StuckMeaning(paths, dir, relocations);
      RoundsStop(paths, replacements, k + 1, |replacements|, dir, relocations);
    } else {
      RoundSucceeds(paths, replacements, now, k, dir, relocations);
      RoundLeaves(paths, replacements, now, k, dir, relocations);
      SameLength(Round(paths, now, k, dir, relocations).manifest, replacements, k + 1);
      EmptiedAheadFails(paths, replacements, k + 1, j, dir, relocations);
    }
  }

  lemma StuckMeaning(paths: Paths, dir: string, relocations: map<string, string>)
    ensures Stuck(paths, dir, relocations) ==
            if HasCopy(paths, "", dir, relocations) then MissingLine else UncopiedPath
  {
  }

  function RoundsEnd(paths: Paths, replacements: seq<Replacement>, dir: string, relocations: map<string, string>)
    : Relocation<seq<Directive>>
  {
    Rounds(paths, replacements, |replacements|, dir, relocations)
  }

  lemma RoundSucceeds(paths: Paths, replacements: seq<Replacement>, directives: seq<Directive>, i: nat, dir: string,
                      relocations: map<string, string>)
    requires Named(replacements) && AreLeft(directives, replacements, i) && i < |replacements|
    requires directives[i] != EMPTIED && ReplacementsHaveCopies(paths, replacements, dir, relocations)
    ensures Round(paths, directives, i, dir, relocations).Relocated?
  {
    hide HasCopy;
    assert IsLeft(directives[i], replacements[i], false);
    if replacements[i].newVersion == "" {
      var first := RoundEdits(paths, replacements, directives, i, dir, relocations);
    }
  }

  /** As long as no round reaches ahead, every round succeeds and finds its directive untouched. */
  lemma {:induction false} NothingAheadEmptied(paths: Paths, replacements: seq<Replacement>, k: nat, dir: string,
                                               relocations: map<string, string>)
    requires Named(replacements) && k <= |replacements| && NoneAhead(replacements, k)
    requires ReplacementsHaveCopies(paths, replacements, dir, relocations)
    ensures var r := Rounds(paths, replacements, k, dir, relocations);
            && r.Relocated? && AreLeft(r.manifest, replacements, k)
            && forall j :: k <= j < |replacements| ==> r.manifest[j] == Parsed(replacements[j])
  {
    hide Round, HasCopy, Covers, IsLeft;
    if k == 0 {
      RoundsLeave(paths, replacements, k, dir, relocations);
    } else {
      NothingAheadEmptied(paths, replacements, k - 1, dir, relocations);
      var before := Rounds(paths, replacements, k - 1, dir, relocations).manifest;
      ParsedIsNotEmptied(replacements[k - 1]);
      RoundSucceeds(paths, replacements, before, k - 1, dir, relocations);
      RoundLeaves(paths, replacements, before, k - 1, dir, relocations);
      if replacements[k - 1].newVersion == "" {
        var first := RoundEdits(paths, replacements, before, k - 1, dir, relocations);
      } else {
        VersionedRound(paths, before, k - 1, dir, relocations);
      }
    }
  }

  lemma ParsedIsNotEmptied(x: Replacement)
    ensures Parsed(x) != EMPTIED
  {
  }

  lemma VersionedRound(paths: Paths, directives: seq<Directive>, i: nat, dir: string, relocations: map<string, string>)
    requires i < |directives| && directives[i].replacement.newVersion != ""
    ensures Round(paths, directives, i, dir, relocations) == Relocated(directives)
  {
  }

  /** A round that reaches ahead ends the loop, copies or not. */
  lemma ReachingAheadFails(paths: Paths, replacements: seq<Replacement>, i: nat, j: nat, dir: string,
                           relocations: map<string, string>)
    requires Named(replacements) && ReplacementsHaveCopies(paths, replacements, dir, relocations)
    requires i < j < |replacements| && replacements[i].newVersion == "" && Covers(replacements[i], replacements[j])
    requires NoneAhead(replacements, i)
    ensures RoundsEnd(paths, replacements, dir, relocations) == Stuck(paths, dir, relocations)
  {
    hide Round, HasCopy, Covers, IsLeft, RoundsEnd, Stuck;
    NothingAheadEmptied(paths, replacements, i, dir, relocations);
    var before := Rounds(paths, replacements, i, dir, relocations).manifest;
    var first := RoundEdits(paths, replacements, before, i, dir, relocations);
    EmptiedAheadFails(paths, replacements, i + 1, j, dir, relocations);
  }

  lemma {:induction false} FirstAhead(replacements: seq<Replacement>, n: nat) returns (i: nat, j: nat)
    requires n <= |replacements| && !NoneAhead(replacements, n)
    ensures i < j < |replacements| && replacements[i].newVersion == "" && Covers(replacements[i], replacements[j])
    ensures NoneAhead(replacements, i)
  {
    hide Covers;
    i, j :| 0 <= i < n && i < j < |replacements| && replacements[i].newVersion == "" &&
            Covers(replacements[i], replacements[j]);
    if !NoneAhead(replacements, i) {
      i, j := FirstAhead(replacements, i);
    }
  }

  /** Without a copy, the round of the replacement fails unless an earlier one did. */
  lemma UncopiedFails(paths: Paths, replacements: seq<Replacement>, j: nat, dir: string,
                      relocations: map<string, string>)
    requires Named(replacements) && j < |replacements| && replacements[j].newVersion == ""
    requires !HasCopy(paths, replacements[j].newPath, dir, relocations)
    ensures !RoundsEnd(paths, replacements, dir, relocations).Relocated?
  {
    hide Round, HasCopy, AreLeft;
    if Rounds(paths, replacements, j, dir, relocations).Relocated? {
      RoundsLeave(paths, replacements, j, dir, relocations);
      var before := Rounds(paths, replacements, j, dir, relocations).manifest;
      SameLength(before, replacements, j);
      if Round(paths, before, j, dir, relocations).Relocated? {
        RoundLeaves(paths, replacements, before, j, dir, relocations);
      } else {
        RoundsStop(paths, replacements, j + 1, |replacements|, dir, relocations);
      }
    } else {
      RoundsStop(paths, replacements, j, |replacements|, dir, relocations);
    }
  }

  // ------------------------------------------------------------------------------ the lines left

  lemma {:induction false} LinesOfAll(directives: seq<Directive>)
    requires forall d :: d in directives ==> d.line.Some?
    ensures |Lines(directives)| == |directives|
    ensures forall i :: 0 <= i < |directives| ==> Lines(directives)[i] == directives[i].line.value
  {
    if |directives| == 0 {
    } else {
      assert directives[0] in directives;
      LinesOfAll(directives[1..]);
    }
  }

  lemma {:induction false} LinesAreFewer(directives: seq<Directive>)
    ensures |Lines(directives)| <= |directives|
    ensures EMPTIED in directives ==> |Lines(directives)| < |directives|
  {
    if |directives| == 0 {
    } else {
      LinesAreFewer(directives[1..]);
      assert directives == [directives[0]] + directives[1..];
    }
  }

  /** With separate replacements, every round rewrites its own line and no other. */
  lemma {:induction false} SeparateRounds(paths: Paths, replacements: seq<Replacement>, k: nat, dir: string,
                                          relocations: map<string, string>)
    requires Named(replacements) && k <= |replacements| && Separate(replacements)
    requires ReplacementsHaveCopies(paths, replacements, dir, relocations)
    ensures var r := Rounds(paths, replacements, k, dir, relocations);
            && r.Relocated? && AreLeft(r.manifest, replacements, k)
            && (forall j :: 0 <= j < k ==>
                  r.manifest[j].line.Some? &&
                  IsRelocated(paths, replacements[j], r.manifest[j].line.value, dir, relocations))
            && (forall j :: k <= j < |replacements| ==> r.manifest[j] == Parsed(replacements[j]))
  {
    hide Round, HasCopy, Covers, IsLeft, IsRelocated;
    NothingAheadEmptied(paths, replacements, k, dir, relocations);
    if k == 0 {
    } else {
      SeparateRounds(paths, replacements, k - 1, dir, relocations);
      var before := Rounds(paths, replacements, k - 1, dir, relocations).manifest;
      OwnRound(paths, replacements, before, k - 1, dir, relocations);
    }
  }

  lemma OwnRound(paths: Paths, replacements: seq<Replacement>, directives: seq<Directive>, i: nat, dir: string,
                 relocations: map<string, string>)
    requires Named(replacements) && Separate(replacements) && i < |replacements|
    requires AreLeft(directives, replacements, i) && directives[i] == Parsed(replacements[i])
    requires ReplacementsHaveCopies(paths, replacements, dir, relocations)
    ensures var r := Round(paths, directives, i, dir, relocations);
            && r.Relocated? && |r.manifest| == |directives|
            && (forall j :: 0 <= j < |directives| && j != i ==> r.manifest[j] == directives[j])
            && r.manifest[i].line.Some?
            && IsRelocated(paths, replacements[i], r.manifest[i].line.value, dir, relocations)
  {
    hide HasCopy, Covers, IsLeft;
    if replacements[i].newVersion == "" {
      hide Round;
      var first := RoundEdits(paths, replacements, directives, i, dir, relocations);
      assert first == i;
    }
  }

  /** A local replacement that is for another directive as well costs a line. */
  lemma OverlapLosesLine(paths: Paths, replacements: seq<Replacement>, i: nat, j: nat, dir: string,
                         relocations: map<string, string>)
    requires Named(replacements) && i < |replacements| && j < |replacements| && i != j
    requires replacements[i].newVersion == "" && Covers(replacements[i], replacements[j])
    requires RoundsEnd(paths, replacements, dir, relocations).Relocated?
    ensures |Lines(RoundsEnd(paths, replacements, dir, relocations).manifest)| < |replacements|
  {
    hide Round, HasCopy, AreLeft, Covers;
    var n := |replacements|;
    var end := RoundsEnd(paths, replacements, dir, relocations).manifest;
    RoundsLeave(paths, replacements, n, dir, relocations);
    SameLength(end, replacements, n);
    if !Rounds(paths, replacements, i, dir, relocations).Relocated? {
      RoundsStop(paths, replacements, i, n, dir, relocations);
    }
    if !Rounds(paths, replacements, i + 1, dir, relocations).Relocated? {
      RoundsStop(paths, replacements, i + 1, n, dir, relocations);
    }
    RoundsLeave(paths, replacements, i, dir, relocations);
    var before := Rounds(paths, replacements, i, dir, relocations).manifest;
    SameLength(before, replacements, i);
    RoundLeaves(paths, replacements, before, i, dir, relocations);
    var first := RoundEdits(paths, replacements, before, i, dir, relocations);
    CoversItself(replacements[i]);
    var lost := if first == i then j else i;
    EmptiedStays(paths, replacements, i + 1, n, lost, dir, relocations);
    assert end[lost] in end;
    LinesAreFewer(end);
  }

  /** Both results of the loop, exactly: when it succeeds, and when all else then stays as it was. */
  lemma RelocationOutcome(paths: Paths, replacements: seq<Replacement>, dir: string, relocations: map<string, string>)
    requires Named(replacements)
    ensures var r := RelocateAll(paths, replacements, dir, relocations);
            var copied := ReplacementsHaveCopies(paths, replacements, dir, relocations);
            && (r.Relocated? <==> copied && NoneAhead(replacements, |replacements|))
            && (r.Relocated? && AreRelocated(paths, replacements, r.manifest, dir, relocations) <==>
                  copied && Separate(replacements))
            && (copied && !r.Relocated? ==>
                  r == if HasCopy(paths, "", dir, relocations) then MissingLine else UncopiedPath)
            && (r.Relocated? || r == MissingLine || r == UncopiedPath)
  {
    hide Rounds, HasCopy, Covers, IsRelocated, Lines, AreLeft;
    var n := |replacements|;
    if ReplacementsHaveCopies(paths, replacements, dir, relocations) {
      if NoneAhead(replacements, n) {
        NothingAheadEmptied(paths, replacements, n, dir, relocations);
      } else {
        var i, j := FirstAhead(replacements, n);
        ReachingAheadFails(paths, replacements, i, j, dir, relocations);
      }
      if Separate(replacements) {
        SeparateIsRelocated(paths, replacements, dir, relocations);
      }
    } else {
      var j :| 0 <= j < n && replacements[j].newVersion == "" &&
               !HasCopy(paths, replacements[j].newPath, dir, relocations);
      UncopiedFails(paths, replacements, j, dir, relocations);
    }
    if !Separate(replacements) && RoundsEnd(paths, replacements, dir, relocations).Relocated? {
      var i, j :| 0 <= i < n && 0 <= j < n && i != j && replacements[i].newVersion == "" &&
                  Covers(replacements[i], replacements[j]);
      OverlapLosesLine(paths, replacements, i, j, dir, relocations);
    }
  }

  lemma SeparateIsRelocated(paths: Paths, replacements: seq<Replacement>, dir: string,
                            relocations: map<string, string>)
    requires Named(replacements) && Separate(replacements)
    requires ReplacementsHaveCopies(paths, replacements, dir, relocations)
    ensures NoneAhead(replacements, |replacements|)
    ensures var r := RelocateAll(paths, replacements, dir, relocations);
            r.Relocated? && AreRelocated(paths, replacements, r.manifest, dir, relocations)
  {
    hide Rounds, HasCopy, Covers, IsRelocated, IsLeft, Lines;
    SeparateRounds(paths, replacements, |replacements|, dir, relocations);
    LinesOfAll(RoundsEnd(paths, replacements, dir, relocations).manifest);
  }

  // ------------------------------------------------------------------------------- two inputs

  /** A version-specific replacement before a general one, both local and copied: only the general one is left. */
  lemma VersionIsLost(paths: Paths, dir: string, relocations: map<string, string>)
    requires HasCopy(paths, "./x", dir, relocations) && HasCopy(paths, "./y", dir, relocations)
    ensures RelocateAll(paths, [Replacement("a", "v1.0.0", "./x", ""), Replacement("a", "", "./y", "")], dir,
                        relocations)
            == Relocated([Replacement("a", "", CopiedWorkspacePath(paths, "./y", dir, relocations), "")])
  {
    hide HasCopy, Rounds, AddReplace;
    var versioned, general := Replacement("a", "v1.0.0", "./x", ""), Replacement("a", "", "./y", "");
    var replacements := [versioned, general];
    var x := CopiedWorkspacePath(paths, "./x", dir, relocations);
    var y := CopiedWorkspacePath(paths, "./y", dir, relocations);
    var start := [Parsed(versioned), Parsed(general)];
    assert AllParsed(replacements) == start;
    FirstRounds(paths, replacements, dir, relocations);
    AddReplaceEach(start, "a", "v1.0.0", x, 0);
    var once := [Rewritten(start[0], "a", "v1.0.0", x), start[1]];
    assert Round(paths, start, 0, dir, relocations).manifest == once;
    AddReplaceEach(once, "a", "", y, 0);
    var twice := [Rewritten(once[0], "a", "", y), EMPTIED];
    assert Round(paths, once, 1, dir, relocations).manifest == twice;
    assert Rounds(paths, replacements, 2, dir, relocations) == Relocated(twice);
    LinesOfPair(twice[0], twice[1]);
  }

  lemma LinesOfPair(first: Directive, second: Directive)
    requires first.line.Some? && second.line.None?
    ensures Lines([first, second]) == [first.line.value]
  {
    assert [first, second][1..] == [second] && [second][1..] == [];
    assert Lines([second]) == [];
  }

  lemma FirstRounds(paths: Paths, replacements: seq<Replacement>, dir: string, relocations: map<string, string>)
    requires |replacements| == 2
    ensures Rounds(paths, replacements, 2, dir, relocations) ==
            var once := Round(paths, AllParsed(replacements), 0, dir, relocations);
            if once.Relocated? then Round(paths, once.manifest, 1, dir, relocations) else once
  {
    hide Round;
    assert Rounds(paths, replacements, 0, dir, relocations) == Relocated(AllParsed(replacements));
    assert Rounds(paths, replacements, 1, dir, relocations) ==
           Round(paths, AllParsed(replacements), 0, dir, relocations);
  }

  /** In the other order the loop meets the emptied directive, and fails although everything is copied. */
  lemma GeneralFirstFails(paths: Paths, dir: string, relocations: map<string, string>)
    requires HasCopy(paths, "./x", dir, relocations) && HasCopy(paths, "./y", dir, relocations)
    ensures RelocateAll(paths, [Replacement("a", "", "./y", ""), Replacement("a", "v1.0.0", "./x", "")], dir,
                        relocations)
            == if HasCopy(paths, "", dir, relocations) then MissingLine else UncopiedPath
  {
    hide HasCopy, Rounds;
    var replacements := [Replacement("a", "", "./y", ""), Replacement("a", "v1.0.0", "./x", "")];
    assert Covers(replacements[0], replacements[1]);
    RelocationOutcome(paths, replacements, dir, relocations);
  }

  // ---------------------------------------------------------------------------------- the code

  /** The loop over the replacements of a manifest, which rewrites them through `AddReplace`. */
  method RelocateReplacements(paths: Paths, replacements: seq<Replacement>, dir: string,
                              relocations: map<string, string>) returns (r: Relocation<seq<Replacement>>)
    requires Named(replacements)
    ensures r == RelocateAll(paths, replacements, dir, relocations)
  {
    hide HasCopy, AddReplace, AreLeft;
    var directives := AllParsed(replacements);
    for i := 0 to |replacements|
      invariant Rounds(paths, replacements, i, dir, relocations) == Relocated(directives)
      invariant |directives| == |replacements|
    {
      ghost var next := Rounds(paths, replacements, i + 1, dir, relocations);
      if next.Relocated? {
        RoundsLeave(paths, replacements, i + 1, dir, relocations);
        SameLength(next.manifest, replacements, i + 1);
      } else {
        RoundsStop(paths, replacements, i + 1, |replacements|, dir, relocations);
      }
      var replacement := directives[i].replacement;
      if replacement.newVersion != "" {
        continue;
      }
      if !HasCopy(paths, replacement.newPath, dir, relocations) {
        return UncopiedPath;
      }
      var copy := CopiedWorkspacePath(paths, replacement.newPath, dir, relocations);
      var edited := AddReplace(directives, replacement.oldPath, replacement.oldVersion, copy, true);
      if edited.None? {
        return MissingLine;
      }
      directives := edited.value;
    }
    return Relocated(Lines(directives));
  }

  /** `RelocateModuleManifest`. */
  method RelocateModuleManifest(paths: Paths, manifest: ModFile, originalDir: string, relocations: map<string, string>)
    returns (r: Relocation<ModFile>)
    requires manifest.ModFile? ==> Named(manifest.replacements)
    ensures if !paths.isAbs(originalDir) then r == RelativeDirectory
            else if manifest.Broken? then r == BrokenManifest
            else
              match RelocateAll(paths, manifest.replacements, originalDir, relocations)
              case Relocated(replacements) => r == Relocated(ModFile(manifest.named, replacements))
              case UncopiedPath => r == UncopiedPath
              case _ => r == MissingLine
  {
    hide RelocateAll, Named;
    if !paths.isAbs(originalDir) {
      return RelativeDirectory;
    }
    match manifest
    case Broken =>
      return BrokenManifest;
    case ModFile(named, replacements) =>
      var relocated := RelocateReplacements(paths, replacements, originalDir, relocations);
      match relocated
      case Relocated(rewritten) => return Relocated(ModFile(named, rewritten));
      case UncopiedPath => return UncopiedPath;
      case _ => return MissingLine;
  }

  ghost predicate UsesHaveCopies(paths: Paths, uses: seq<Use>, dir: string, relocations: map<string, string>)
  {
    forall i :: 0 <= i < |uses| ==> HasCopy(paths, uses[i].path, dir, relocations)
  }

  /** Every use points to its copy, and the runtime module comes last. */
  ghost predicate UsesAreRelocated(paths: Paths, before: seq<Use>, after: seq<Use>, dir: string, runtime: string,
                                   relocations: map<string, string>)
  {
    && |after| == |before| + 1 && after[|before|] == Use(paths.clean(runtime), "")
    && forall i :: 0 <= i < |before| ==>
         HasCopy(paths, before[i].path, dir, relocations) &&
         after[i] == Use(CopiedWorkspacePath(paths, before[i].path, dir, relocations), before[i].modulePath)
  }

  predicate SameCopy(paths: Paths, a: string, b: string, dir: string, relocations: map<string, string>)
  {
    && HasCopy(paths, a, dir, relocations) && HasCopy(paths, b, dir, relocations)
    && CopiedWorkspacePath(paths, a, dir, relocations) == CopiedWorkspacePath(paths, b, dir, relocations)
  }

  predicate CopyIs(paths: Paths, a: string, dir: string, relocations: map<string, string>, copy: string)
  {
    HasCopy(paths, a, dir, relocations) && CopiedWorkspacePath(paths, a, dir, relocations) == copy
  }

  /** Different uses have different copies, none of them the runtime module. */
  ghost predicate DistinctCopies(paths: Paths, uses: seq<Use>, dir: string, runtime: string,
                                 relocations: map<string, string>)
  {
    && (forall i, j :: 0 <= i < j < |uses| ==> !SameCopy(paths, uses[i].path, uses[j].path, dir, relocations))
    && (forall i :: 0 <= i < |uses| ==> !CopyIs(paths, uses[i].path, dir, relocations, paths.clean(runtime)))
  }

  lemma RelocatedUsesDiffer(paths: Paths, uses: seq<Use>, after: seq<Use>, dir: string, runtime: string,
                            relocations: map<string, string>)
    requires UsesAreRelocated(paths, uses, after, dir, runtime, relocations) && DistinctKeys(after, UsePath)
    ensures DistinctCopies(paths, uses, dir, runtime, relocations)
  {
  }

  function UsePath(use: Use): string { use.path }

  /** `relocatedWorkspaceUses`. */
  method RelocatedWorkspaceUses(paths: Paths, uses: seq<Use>, dir: string, runtime: string,
                                relocations: map<string, string>) returns (r: Relocation<seq<Use>>)
    ensures r.Relocated? ==>
              UsesAreRelocated(paths, uses, r.manifest, dir, runtime, relocations) && DistinctKeys(r.manifest, UsePath)
    ensures r.Relocated? ==> DistinctCopies(paths, uses, dir, runtime, relocations)
    ensures r == UncopiedPath ==> !UsesHaveCopies(paths, uses, dir, relocations)
    ensures r == DuplicateCopies || r == OverlappingRuntime ==>
              !DistinctCopies(paths, uses, dir, runtime, relocations)
    ensures r.Relocated? || r.UncopiedPath? || r.DuplicateCopies? || r.OverlappingRuntime?
  {
    hide HasCopy, DistinctKeys;
    var relocated: seq<Use>, seen: set<string> := [], {};
    NoUses(relocated);
    for k := 0 to |uses|
      invariant |relocated| == k && DistinctKeys(relocated, UsePath)
      invariant forall i :: 0 <= i < k ==>
                  HasCopy(paths, uses[i].path, dir, relocations) &&
                  relocated[i] == Use(CopiedWorkspacePath(paths, uses[i].path, dir, relocations), uses[i].modulePath)
      invariant forall path :: path in seen <==> exists i :: 0 <= i < k && relocated[i].path == path
    {
      if !HasCopy(paths, uses[k].path, dir, relocations) {
        return UncopiedPath;
      }
      var path := CopiedWorkspacePath(paths, uses[k].path, dir, relocations);
      if path in seen {
        ghost var i :| 0 <= i < k && relocated[i].path == path;
        assert SameCopy(paths, uses[i].path, uses[k].path, dir, relocations);
        return DuplicateCopies;
      }
      AppendUse(relocated, Use(path, uses[k].modulePath));
      seen, relocated := seen + {path}, relocated + [Use(path, uses[k].modulePath)];
    }
    if paths.clean(runtime) in seen {
      ghost var i :| 0 <= i < |uses| && relocated[i].path == paths.clean(runtime);
      assert CopyIs(paths, uses[i].path, dir, relocations, paths.clean(runtime));
      return OverlappingRuntime;
    }
    AppendUse(relocated, Use(paths.clean(runtime), ""));
    RelocatedUsesDiffer(paths, uses, relocated + [Use(paths.clean(runtime), "")], dir, runtime, relocations);
    return Relocated(relocated + [Use(paths.clean(runtime), "")]);
  }

  lemma NoUses(uses: seq<Use>)
    requires uses == []
    ensures DistinctKeys(uses, UsePath)
  {
  }

  lemma AppendUse(uses: seq<Use>, use: Use)
    requires DistinctKeys(uses, UsePath) && forall i :: 0 <= i < |uses| ==> uses[i].path != use.path
    ensures DistinctKeys(uses + [use], UsePath)
  {
  }

  /** `RelocateWorkspaceManifest`, for a workspace that parses. */
  method RelocateWorkspaceManifest(paths: Paths, work: WorkFile, originalDir: string, runtime: string,
                                   relocations: map<string, string>) returns (r: Relocation<WorkFile>)
    requires Named(work.replacements)
    ensures r == RelativeDirectory <==> !paths.isAbs(originalDir) || !paths.isAbs(runtime)
    ensures r == UncopiedPath ==>
              !UsesHaveCopies(paths, work.uses, originalDir, relocations) ||
              RelocateAll(paths, work.replacements, originalDir, relocations) == UncopiedPath
    ensures r == MissingLine ==> RelocateAll(paths, work.replacements, originalDir, relocations) == MissingLine
    ensures r.Relocated? ==>
              && UsesAreRelocated(paths, work.uses, r.manifest.uses, originalDir, runtime, relocations)
              && DistinctKeys(r.manifest.uses, UsePath)
              && RelocateAll(paths, work.replacements, originalDir, relocations) == Relocated(r.manifest.replacements)
    ensures r.Relocated? <==>
              && paths.isAbs(originalDir) && paths.isAbs(runtime)
              && DistinctCopies(paths, work.uses, originalDir, runtime, relocations)
              && UsesHaveCopies(paths, work.uses, originalDir, relocations)
              && RelocateAll(paths, work.replacements, originalDir, relocations).Relocated?
  {
    hide RelocateAll, HasCopy, DistinctKeys, Named;
    if !paths.isAbs(originalDir) || !paths.isAbs(runtime) {
      return RelativeDirectory;
    }
    var uses := RelocatedWorkspaceUses(paths, work.uses, originalDir, runtime, relocations);
    match uses
    case Relocated(relocated) =>
      var replacements := RelocateReplacements(paths, work.replacements, originalDir, relocations);
      OnlyThree(paths, work.replacements, originalDir, relocations);
      match replacements {
        case Relocated(rewritten) => return Relocated(WorkFile(relocated, rewritten));
        case UncopiedPath => return UncopiedPath;
        case _ => return MissingLine;
      }
    case UncopiedPath => return UncopiedPath;
    case DuplicateCopies => return DuplicateCopies;
    case _ => return OverlappingRuntime;
  }

  lemma OnlyThree(paths: Paths, replacements: seq<Replacement>, dir: string, relocations: map<string, string>)
    ensures var r := RelocateAll(paths, replacements, dir, relocations);
            r.Relocated? || r == UncopiedPath || r == MissingLine
  {
  }

  // ----------------------------------------------------- the closure makes relocation total

  /** Every collected directory has an absolute copy. */
  ghost predicate AllCopied(project: Project, roots: seq<string>, relocations: map<string, string>)
  {
    forall dir :: InClosure(project, roots, dir) ==> dir in relocations && project.paths.isAbs(relocations[dir])
  }

  /** With the closure copied, no manifest of the workspace names a path without a copy. */
  lemma ClosureIsRelocatable(project: Project, work: WorkFile, workspaceDir: string, relocations: map<string, string>)
    requires AllCopied(project, WorkspaceModuleQueue(project.paths, work, workspaceDir), relocations)
    ensures UsesHaveCopies(project.paths, work.uses, workspaceDir, relocations)
    ensures ReplacementsHaveCopies(project.paths, work.replacements, workspaceDir, relocations)
    ensures forall dir ::
              InClosure(project, WorkspaceModuleQueue(project.paths, work, workspaceDir), dir) &&
              Manifest(project, dir).ModFile? ==>
                ReplacementsHaveCopies(project.paths, Manifest(project, dir).replacements, dir, relocations)
  {
    hide InClosure, Manifest, LocalReplacementDirs;
    var roots := WorkspaceModuleQueue(project.paths, work, workspaceDir);
    forall i | 0 <= i < |work.uses|
      ensures HasCopy(project.paths, work.uses[i].path, workspaceDir, relocations)
    {
      assert roots[i] == Resolve(project.paths, workspaceDir, work.uses[i].path);
      RootsAreReached(project, roots, roots[i]);
    }
    LocalReplacementsContain(project.paths, work.replacements, workspaceDir);
    forall x | x in work.replacements && x.newVersion == ""
      ensures HasCopy(project.paths, x.newPath, workspaceDir, relocations)
    {
      RootsAreReached(project, roots, Resolve(project.paths, workspaceDir, x.newPath));
    }
    forall dir | InClosure(project, roots, dir) && Manifest(project, dir).ModFile?
      ensures ReplacementsHaveCopies(project.paths, Manifest(project, dir).replacements, dir, relocations)
    {
      MemberIsRelocatable(project, roots, dir, relocations);
    }
  }

  lemma MemberIsRelocatable(project: Project, roots: seq<string>, dir: string, relocations: map<string, string>)
    requires AllCopied(project, roots, relocations) && InClosure(project, roots, dir)
    requires Manifest(project, dir).ModFile?
    ensures ReplacementsHaveCopies(project.paths, Manifest(project, dir).replacements, dir, relocations)
  {
    hide InClosure, LocalReplacementDirs;
    var replacements := Manifest(project, dir).replacements;
    LocalReplacementsContain(project.paths, replacements, dir);
    forall x | x in replacements && x.newVersion == ""
      ensures HasCopy(project.paths, x.newPath, dir, relocations)
    {
      NextIsReached(project, roots, dir, Resolve(project.paths, dir, x.newPath));
    }
  }

  /**
   With the closure copied, an uncopied path is reported exactly if a local replacement is for a later
   directive and the directory of the manifest itself has no copy.
   */
  lemma UncopiedExactly(project: Project, work: WorkFile, workspaceDir: string, relocations: map<string, string>)
    requires AllCopied(project, WorkspaceModuleQueue(project.paths, work, workspaceDir), relocations)
    ensures Named(work.replacements) ==>
              (RelocateAll(project.paths, work.replacements, workspaceDir, relocations) == UncopiedPath <==>
               !NoneAhead(work.replacements, |work.replacements|) &&
               !HasCopy(project.paths, "", workspaceDir, relocations))
    ensures forall dir ::
              InClosure(project, WorkspaceModuleQueue(project.paths, work, workspaceDir), dir) &&
              Manifest(project, dir).ModFile? && Named(Manifest(project, dir).replacements) ==>
                (RelocateAll(project.paths, Manifest(project, dir).replacements, dir, relocations) == UncopiedPath <==>
                 !NoneAhead(Manifest(project, dir).replacements, |Manifest(project, dir).replacements|) &&
                 !HasCopy(project.paths, "", dir, relocations))
  {
    hide InClosure, Manifest, RelocateAll, NoneAhead, HasCopy, AllCopied, Named, AreRelocated;
    ClosureIsRelocatable(project, work, workspaceDir, relocations);
    if Named(work.replacements) {
      RelocationOutcome(project.paths, work.replacements, workspaceDir, relocations);
    }
    forall dir | InClosure(project, WorkspaceModuleQueue(project.paths, work, workspaceDir), dir) &&
                 Manifest(project, dir).ModFile? && Named(Manifest(project, dir).replacements)
      ensures RelocateAll(project.paths, Manifest(project, dir).replacements, dir, relocations) == UncopiedPath <==>
              !NoneAhead(Manifest(project, dir).replacements, |Manifest(project, dir).replacements|) &&
              !HasCopy(project.paths, "", dir, relocations)
    {
      RelocationOutcome(project.paths, Manifest(project, dir).replacements, dir, relocations);
    }
  }

  // ------------------------------------------------------------------------- copies, spelled out

  /** A path has a copy if the directory it points to is relocated to an absolute path, and that is its copy. */
  lemma CopyMeaning(paths: Paths, path: string, dir: string, relocations: map<string, string>, target: string)
    requires PointsTo(paths, dir, path, target)
    ensures HasCopy(paths, path, dir, relocations) <==> target in relocations && paths.isAbs(relocations[target])
    ensures HasCopy(paths, path, dir, relocations) ==>
              CopiedWorkspacePath(paths, path, dir, relocations) == paths.clean(relocations[target])
  {
    hide PointsTo;
    ResolveMeaning(paths, dir, path, target);
  }

  /** What relocating one directive means: only the new path of a local replacement changes, to its copy. */
  lemma RelocatedDirective(paths: Paths, before: Replacement, after: Replacement, dir: string,
                           relocations: map<string, string>, target: string)
    requires PointsTo(paths, dir, before.newPath, target)
    ensures IsRelocated(paths, before, after, dir, relocations) <==>
            && after.oldPath == before.oldPath && after.oldVersion == before.oldVersion
            && after.newVersion == before.newVersion
            && if before.newVersion != "" then after.newPath == before.newPath
               else target in relocations && paths.isAbs(relocations[target]) &&
                    after.newPath == paths.clean(relocations[target])
  {
    hide PointsTo, HasCopy, CopiedWorkspacePath;
    CopyMeaning(paths, before.newPath, dir, relocations, target);
  }
}
