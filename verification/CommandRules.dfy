module CommandRules {
  // The exit code of every lockfile command, and the file behind it (internal/cli/lock.go).

  import opened LockCommands
  import opened LockDiffs
  import opened Lockfiles
  import opened Policies

  // ------------------------------------------------------------------------ the specification

  /** The path holds a lockfile that can be read and is valid. */
  ghost predicate HoldsLock(checks: Checks, path: LockPath, lock: Lockfile)
  {
    path == Stored(Encoding(lock)) && ValidLock(checks, lock)
  }

  /** There is a file, and it is no valid lockfile. */
  ghost predicate IsDamaged(checks: Checks, path: LockPath)
  {
    path != Absent && forall lock :: !HoldsLock(checks, path, lock)
  }

  /** The stored lockfile is one of the current resolution, whatever build identity it records. */
  ghost predicate IsCurrent(checks: Checks, path: LockPath, current: Lockfile)
  {
    exists lock :: HoldsLock(checks, path, lock) && SameResolution(lock, current)
  }

  ghost predicate HasOtherIdentity(checks: Checks, path: LockPath, current: Lockfile)
  {
    exists lock :: HoldsLock(checks, path, lock) && HasIdentity(lock) && !SameResolution(lock, current)
  }

  // ------------------------------------------------------------------------------ main results

  /** A failed preparation keeps its exit code, and the file, for every command. */
  lemma FailureIsKept(checks: Checks, command: Command, options: Options, exit: int, writable: bool, path: LockPath)
    ensures Run(checks, command, options, Failed(exit), writable, path) == Outcome(exit, path)
  {
  }

  lemma HeldLock(checks: Checks, path: LockPath)
    ensures path.Stored? && Parses(checks, path.contents) ==> HoldsLock(checks, path, path.contents.lock)
    ensures forall lock :: HoldsLock(checks, path, lock) ==>
              path.Stored? && Parses(checks, path.contents) && path.contents.lock == lock
  {
  }

  /** What a command starts from: the stored lockfile, nothing, or, for a plain `lock`, nothing in place of damage. */
  lemma PreviousMeaning(checks: Checks, command: Command, options: Options, path: LockPath)
    ensures var previous := PreviousLock(checks, command, options, path);
            && (path == Absent ==> previous == Previous(EMPTY_LOCK, false))
            && (forall lock :: HoldsLock(checks, path, lock) ==> previous == Previous(lock, true))
            && (IsDamaged(checks, path) ==>
                  previous == if path != Unreadable && command == Lock && !options.check then Previous(EMPTY_LOCK, true)
                              else Rejected)
  {
    hide ValidLock;
    HeldLock(checks, path);
  }

  lemma CurrentIsUpToDate(checks: Checks, path: LockPath, current: Lockfile)
    ensures UpToDate(checks, path, current) <==> IsCurrent(checks, path, current)
  {
    hide ValidLock, SameLock;
    HeldLock(checks, path);
  }

  /** `validate`, with whatever options: passes without a lockfile or with a current one, and never writes. */
  lemma ValidateExits(checks: Checks, options: Options, current: Lockfile, writable: bool, path: LockPath)
    ensures Run(checks, Validate, options, Created(current), writable, path) ==
            Outcome(if path == Absent || IsCurrent(checks, path, current) then 0 else 6, path)
  {
    hide ValidLock, SameResolution;
    HeldLock(checks, path);
    CurrentIsUpToDate(checks, path, current);
  }

  /** Plain `diff` passes unless the file is damaged; `diff --check` passes exactly on a current lockfile. */
  lemma DiffExits(checks: Checks, options: Options, current: Lockfile, writable: bool, path: LockPath)
    ensures Run(checks, DiffCommand, options, Created(current), writable, path) ==
            Outcome(if (if options.check then IsCurrent(checks, path, current) else !IsDamaged(checks, path)) then 0
                    else 6, path)
  {
    hide ValidLock, SameResolution;
    HeldLock(checks, path);
    CurrentIsUpToDate(checks, path, current);
  }

  /** `lock --check` passes exactly on a current lockfile, and never writes. */
  lemma LockCheckExits(checks: Checks, dryRun: bool, current: Lockfile, writable: bool, path: LockPath)
    ensures Run(checks, Lock, Options(true, dryRun), Created(current), writable, path) ==
            Outcome(if IsCurrent(checks, path, current) then 0 else 6, path)
  {
    hide ValidLock, SameResolution;
    HeldLock(checks, path);
    CurrentIsUpToDate(checks, path, current);
  }

  /**
   `lock` refuses an unreadable file, a build identity of its own and one of another resolution; otherwise it replaces
   missing, damaged and outdated lockfiles alike, unless it is a dry run or cannot write.
   */
  lemma LockExits(checks: Checks, dryRun: bool, current: Lockfile, writable: bool, path: LockPath)
    ensures var outcome := Run(checks, Lock, Options(false, dryRun), Created(current), writable, path);
            if path == Unreadable || HasIdentity(current) || HasOtherIdentity(checks, path, current) then
              outcome == Outcome(6, path)
            else if dryRun then outcome == Outcome(0, path)
            else if !writable then outcome == Outcome(1, path)
            else
              && outcome.exit == 0
              && exists written :: outcome.path == Stored(Encoding(Canonical(written))) &&
                                   IsWritten(checks, path, current, written)
  {
    hide ValidLock, SameResolution, Canonical, HasIdentity;
    HeldLock(checks, path);
    NoIdentity();
    var previous := PreviousLock(checks, Lock, Options(false, dryRun), path);
    if path != Unreadable && !HasIdentity(current) && !HasOtherIdentity(checks, path, current) {
      assert Refresh(previous.lock, current).Refreshed?;
      assert IsWritten(checks, path, current, Refresh(previous.lock, current).lock);
    }
  }

  /** The current lockfile, with the build identity of the one it replaces if there is any. */
  ghost predicate IsWritten(checks: Checks, path: LockPath, current: Lockfile, written: Lockfile)
  {
    if exists lock :: HoldsLock(checks, path, lock) && HasIdentity(lock) then
      exists lock :: HoldsLock(checks, path, lock) && HasIdentity(lock) &&
        written == current.(backend := current.backend.(digest := lock.backend.digest), artifacts := lock.artifacts)
    else written == current
  }

  lemma NoIdentity()
    ensures !HasIdentity(EMPTY_LOCK)
  {
  }

  /** A lockfile records a build exactly if it has the digest of a backend or artifacts. */
  lemma IdentityMeaning(lock: Lockfile)
    ensures !HasIdentity(lock) <==> lock.backend.digest == NoDigest && |lock.artifacts| == 0
  {
  }

  /** Of one resolution are lockfiles that agree on everything but build identity, order, lines and columns. */
  lemma ResolutionMeaning(previous: Lockfile, current: Lockfile)
    ensures SameResolution(previous, current) <==>
            && previous.apiVersion == current.apiVersion && previous.policyDigest == current.policyDigest
            && previous.goVersion == current.goVersion && previous.moduleGraphDigest == current.moduleGraphDigest
            && previous.backend.name == current.backend.name && previous.backend.version == current.backend.version
            && previous.backend.capabilities == current.backend.capabilities
            && (forall t :: t in previous.targets ==> exists u :: u in current.targets && SameInPlan(t, u))
            && (forall u :: u in current.targets ==> exists t :: t in previous.targets && SameInPlan(u, t))
  {
    hide SameInPlan, SameTarget;
    forall t, u
      ensures SameTarget(t, u) <==> SameInPlan(t, u)
    {
      SameInPlanMeaning(t, u);
    }
    var p, c := Resolution(previous), Resolution(current);
    assert multiset(p.artifacts) == multiset(c.artifacts);
    assert p == c.(targets := p.targets, artifacts := p.artifacts) <==>
           && p.apiVersion == c.apiVersion && p.policyDigest == c.policyDigest && p.goVersion == c.goVersion
           && p.moduleGraphDigest == c.moduleGraphDigest && p.backend == c.backend;
  }

  ghost predicate SameInPlan(t: LockTarget, u: LockTarget)
  {
    && t.symbol == u.symbol && t.signature == u.signature && t.signatureDigest == u.signatureDigest
    && t.sourceRule == u.sourceRule && t.spanName == u.spanName && t.context == u.context && t.errors == u.errors
    && multiset(t.attributes) == multiset(u.attributes) && t.location.file == u.location.file
  }

  lemma SameInPlanMeaning(t: LockTarget, u: LockTarget)
    ensures SameTarget(t, u) <==> SameInPlan(t, u)
  {
  }
}
