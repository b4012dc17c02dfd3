/** Refreshing the lockfile, and the commands that read it. */
module LockCommands {
  // internal/lockfile/refresh.go and internal/cli/lock.go, and what any run of the commands does to recorded
  // build identity.

  import opened LockDiffs
  import opened Lockfiles
  import opened Orders
  import opened Policies

  // ------------------------------------------------------------------ resolution and identity

  /** A lockfile without the parts that only a build knows. */
  function Resolution(lock: Lockfile): Lockfile
  {
    lock.(backend := lock.backend.(digest := NoDigest), artifacts := [])
  }

  predicate HasIdentity(lock: Lockfile)
  {
    lock.backend.digest != NoDigest || lock.artifacts != []
  }

  ghost predicate SameResolution(previous: Lockfile, current: Lockfile)
  {
    SameLock(Resolution(previous), Resolution(current))
  }

  /** The build identity of `previous` on the resolution of `current`. */
  function WithIdentity(previous: Lockfile, current: Lockfile): Lockfile
  {
    current.(backend := current.backend.(digest := previous.backend.digest), artifacts := previous.artifacts)
  }

  /** A previous lockfile as `previousResolutionLock` supplies it: parsed, or the zero value. */
  ghost predicate Supplied(checks: Checks, previous: Lockfile)
  {
    ValidLock(checks, previous) || previous == EMPTY_LOCK
  }

  lemma ResolutionIsValid(checks: Checks, lock: Lockfile)
    requires ValidLock(checks, lock)
    ensures ValidLock(checks, Resolution(lock))
  {
  }

  lemma EmptyLockIsUnique()
    ensures UniqueLock(EMPTY_LOCK)
  {
  }

  lemma ReportedFromNothing(current: Lockfile)
    requires UniqueLock(current) && current.policyDigest.Sha256?
    ensures Reported(Canonical(EMPTY_LOCK), Canonical(current), MetadataEntry(PolicyChange))
  {
  }

  /** `ResolutionDiff`: empty exactly if the resolution is the same, whatever the build identity. */
  method ResolutionDiff(checks: Checks, previous: Lockfile, current: Lockfile) returns (entries: seq<Entry>)
    requires Supplied(checks, previous) && ValidLock(checks, current)
    ensures IsDiff(Resolution(previous), Resolution(current), entries)
    ensures entries == [] <==> SameResolution(previous, current)
  {
    hide ValidLock, Canonical, Ascending, Reported;
    ResolutionIsValid(checks, current);
    var stripped := Resolution(previous);
    if previous == EMPTY_LOCK {
      EmptyLockIsUnique();
    } else {
      ResolutionIsValid(checks, previous);
    }
    SuppliedFacts(checks, stripped);
    SuppliedFacts(checks, Resolution(current));
    entries := Diff(stripped, Resolution(current));
    if previous == EMPTY_LOCK {
      ReportedFromNothing(Resolution(current));
    } else {
      EmptyDiffMeaning(checks, stripped, Resolution(current), entries);
    }
  }

  lemma SuppliedFacts(checks: Checks, lock: Lockfile)
    requires Supplied(checks, lock)
    ensures UniqueLock(lock) && forall t :: t in lock.targets ==> t.symbol != ""
    ensures ValidLock(checks, lock) ==> lock.apiVersion == LOCK_API_VERSION && lock.policyDigest.Sha256?
  {
  }

  datatype Refreshed = Refreshed(lock: Lockfile) | UnexpectedIdentity | StaleIdentity

  /** What a refresh may yield: recorded identity survives only on an unchanged resolution. */
  ghost function Refresh(previous: Lockfile, current: Lockfile): Refreshed
  {
    if HasIdentity(current) then UnexpectedIdentity
    else if !HasIdentity(previous) then Refreshed(current)
    else if SameResolution(previous, current) then Refreshed(WithIdentity(previous, current))
    else StaleIdentity
  }

  method RefreshResolution(checks: Checks, previous: Lockfile, current: Lockfile) returns (r: Refreshed)
    requires Supplied(checks, previous) && ValidLock(checks, current)
    ensures r == Refresh(previous, current)
  {
    hide SameLock, ValidLock, IsDiff;
    if current.backend.digest != NoDigest || |current.artifacts| > 0 {
      return UnexpectedIdentity;
    }
    if previous.backend.digest == NoDigest && |previous.artifacts| == 0 {
      return Refreshed(current);
    }
    var diff := ResolutionDiff(checks, previous, current);
    if diff != [] {
      return StaleIdentity;
    }
    return Refreshed(current.(backend := current.backend.(digest := previous.backend.digest),
                              artifacts := previous.artifacts));
  }

  lemma RefreshedIsValid(checks: Checks, previous: Lockfile, current: Lockfile)
    requires Supplied(checks, previous) && ValidLock(checks, current) && Refresh(previous, current).Refreshed?
    ensures ValidLock(checks, Refresh(previous, current).lock)
  {
  }

  // --------------------------------------------------------------------------- the commands

  datatype Command = Lock | DiffCommand | Validate | Unsupported(name: string)

  datatype Options = Options(check: bool, dryRun: bool)

  /** What is found at the path of the lockfile. */
  datatype LockPath = Absent | Unreadable | Stored(contents: Contents)

  /** The current resolution, or the exit code with which constructing it failed. */
  datatype Prepared = Created(lock: Lockfile) | Failed(exit: int)

  const EXIT_OK := 0
  const EXIT_INTERNAL := 1
  const EXIT_USAGE := 2
  const EXIT_ANALYSIS := 4
  const EXIT_VALIDATION := 5
  const EXIT_STALE_LOCK := 6
  const EXIT_BACKEND := 7

  /** `Create` has checked the lockfile it returns, and was given no artifacts. */
  ghost predicate ValidPrepared(checks: Checks, prepared: Prepared)
  {
    match prepared
    case Created(lock) => ValidLock(checks, lock) && lock.artifacts == []
    case Failed(exit) => exit == EXIT_ANALYSIS || exit == EXIT_VALIDATION || exit == EXIT_BACKEND
  }

  datatype Previous = Previous(lock: Lockfile, stored: bool) | Rejected

  ghost function PreviousLock(checks: Checks, command: Command, options: Options, path: LockPath): Previous
  {
    match path
    case Absent => Previous(EMPTY_LOCK, false)
    case Unreadable => Rejected
    case Stored(contents) =>
      if Parses(checks, contents) then Previous(contents.lock, true)
      else if command != Lock || options.check then Rejected
      else Previous(EMPTY_LOCK, true)
  }

  /** The file holds a lockfile for this very resolution. */
  ghost predicate UpToDate(checks: Checks, path: LockPath, current: Lockfile)
  {
    path.Stored? && Parses(checks, path.contents) && SameResolution(path.contents.lock, current)
  }

  datatype Outcome = Outcome(exit: int, path: LockPath)

  /** When each command succeeds, and the only way in which the file can change. */
  ghost function Run(checks: Checks, command: Command, options: Options, prepared: Prepared, writable: bool,
                     path: LockPath): Outcome
  {
    if prepared.Failed? then Outcome(prepared.exit, path)
    else
      var current := prepared.lock;
      var previous := PreviousLock(checks, command, options, path);
      if previous.Rejected? then Outcome(EXIT_STALE_LOCK, path)
      else
        match command
        case Unsupported(_) => Outcome(EXIT_USAGE, path)
        case Validate =>
          Outcome(if path == Absent || UpToDate(checks, path, current) then EXIT_OK else EXIT_STALE_LOCK, path)
        case DiffCommand =>
          Outcome(if !options.check || UpToDate(checks, path, current) then EXIT_OK else EXIT_STALE_LOCK, path)
        case Lock =>
          if options.check then
            Outcome(if UpToDate(checks, path, current) then EXIT_OK else EXIT_STALE_LOCK, path)
          else
            match Refresh(previous.lock, current)
            case UnexpectedIdentity => Outcome(EXIT_STALE_LOCK, path)
            case StaleIdentity => Outcome(EXIT_STALE_LOCK, path)
            case Refreshed(lock) =>
              if options.dryRun then Outcome(EXIT_OK, path)
              else if !writable then Outcome(EXIT_INTERNAL, path)
              else Outcome(EXIT_OK, Stored(Encoding(Canonical(lock))))
  }

  datatype State = State(previous: Lockfile, current: Lockfile, diff: seq<Entry>, stored: bool)

  /** A project directory with its lockfile. */
  class Project {
    const checks: Checks
    var path: LockPath

    constructor (checks: Checks, path: LockPath)
      ensures this.checks == checks && this.path == path
    {
      this.checks, this.path := checks, path;
    }

    method PreviousResolutionLock(command: Command, options: Options) returns (r: Previous)
      ensures r == PreviousLock(checks, command, options, path)
    {
      match path
      case Absent =>
        return Previous(EMPTY_LOCK, false);
      case Unreadable =>
        return Rejected;
      case Stored(contents) =>
        var previous := Parse(checks, contents);
        if previous.Some? {
          return Previous(previous.value, true);
        }
        if command != Lock || options.check {
          return Rejected;
        }
        return Previous(EMPTY_LOCK, true);
    }

    method PrepareResolutionLock(command: Command, options: Options, prepared: Prepared)
      returns (exit: int, state: Option<State>)
      requires ValidPrepared(checks, prepared)
      ensures prepared.Failed? ==> state == None && exit == prepared.exit
      ensures prepared.Created? ==>
                var previous := PreviousLock(checks, command, options, path);
                if previous.Rejected? then state == None && exit == EXIT_STALE_LOCK
                else
                  && state.Some? && exit == EXIT_OK && state.value.current == prepared.lock
                  && state.value.previous == previous.lock && state.value.stored == previous.stored
                  && Supplied(checks, previous.lock)
                  && IsDiff(Resolution(previous.lock), Resolution(prepared.lock), state.value.diff)
                  && (state.value.diff == [] <==> SameResolution(previous.lock, prepared.lock))
    {
      hide ValidLock, IsDiff, SameLock;
      if prepared.Failed? {
        return prepared.exit, None;
      }
      var previous := PreviousResolutionLock(command, options);
      if previous.Rejected? {
        return EXIT_STALE_LOCK, None;
      }
      var diff := ResolutionDiff(checks, previous.lock, prepared.lock);
      return EXIT_OK, Some(State(previous.lock, prepared.lock, diff, previous.stored));
    }

    /** `lockCommand`; `writable` says whether replacing the lockfile works. */
    method LockCommand(command: Command, options: Options, prepared: Prepared, writable: bool) returns (exit: int)
      requires ValidPrepared(checks, prepared)
      modifies this
      ensures Outcome(exit, path) == Run(checks, command, options, prepared, writable, old(path))
    {
      hide ValidLock, IsDiff, SameLock;
      var preparation, ready := PrepareResolutionLock(command, options, prepared);
      if ready == None {
        return preparation;
      }
      var state := ready.value;
      DriftMeaning(checks, command, options, path, prepared.lock);
      match command
      case Validate =>
        return if state.stored && state.diff != [] then EXIT_STALE_LOCK else EXIT_OK;
      case DiffCommand =>
        return if options.check && state.diff != [] then EXIT_STALE_LOCK else EXIT_OK;
      case Lock =>
        exit := RefreshResolutionLock(options, state, writable);
      case Unsupported(_) =>
        return EXIT_USAGE;
    }

    method RefreshResolutionLock(options: Options, state: State, writable: bool) returns (exit: int)
      requires Supplied(checks, state.previous) && ValidLock(checks, state.current)
      modifies this
      ensures options.check ==>
                path == old(path) &&
                exit == if state.stored && state.diff == [] then EXIT_OK else EXIT_STALE_LOCK
      ensures !options.check ==>
                match Refresh(state.previous, state.current)
                case Refreshed(lock) =>
                  if options.dryRun then exit == EXIT_OK && path == old(path)
                  else if writable then exit == EXIT_OK && path == Stored(Encoding(Canonical(lock)))
                  else exit == EXIT_INTERNAL && path == old(path)
                case _ => exit == EXIT_STALE_LOCK && path == old(path)
    {
      hide SameLock, ValidLock, Canonical;
      if options.check {
        return if !state.stored || state.diff != [] then EXIT_STALE_LOCK else EXIT_OK;
      }
      var refreshed := RefreshResolution(checks, state.previous, state.current);
      if !refreshed.Refreshed? {
        return EXIT_STALE_LOCK;
      }
      if !options.dryRun {
        RefreshedIsValid(checks, state.previous, state.current);
        SuppliedFacts(checks, refreshed.lock);
        var contents := Marshal(checks, refreshed.lock);
        if !writable {
          return EXIT_INTERNAL;
        }
        path := Stored(contents.value);
      }
      return EXIT_OK;
    }
  }

  /** With the zero value for a missing or unreadable lockfile, an empty diff still means up to date. */
  lemma DriftMeaning(checks: Checks, command: Command, options: Options, path: LockPath, current: Lockfile)
    requires ValidLock(checks, current)
    ensures var previous := PreviousLock(checks, command, options, path);
            previous.Previous? ==>
              (UpToDate(checks, path, current) <==> SameResolution(previous.lock, current))
  {
  }

  // ------------------------------------------------------------------------------ SameLock

  lemma SameLockIsTransitive(a: Lockfile, b: Lockfile, c: Lockfile)
    requires SameLock(a, b) && SameLock(b, c)
    ensures SameLock(a, c)
  {
  }

  lemma SameLockIsSymmetric(a: Lockfile, b: Lockfile)
    requires SameLock(a, b)
    ensures SameLock(b, a)
  {
  }

  lemma CanonicalIsSame(lock: Lockfile)
    requires UniqueLock(lock)
    ensures SameLock(Canonical(lock), lock)
  {
    hide SameTarget, SortBy, SortedBy, DistinctKeys, CanonicalTarget;
    CanonicalContents(lock);
    SortBySorts(lock.artifacts, ArtifactPath);
    forall u | u in lock.targets
      ensures SameTarget(CanonicalTarget(u), u) && SameTarget(u, CanonicalTarget(u))
    {
      CanonicalTargetIsSame(u);
      SameTargetIsSymmetric(CanonicalTarget(u), u);
    }
  }

  lemma CanonicalTargetIsSame(t: LockTarget)
    ensures SameTarget(CanonicalTarget(t), t)
  {
    SortBySorts(t.attributes, LockKey);
  }

  lemma SameLockIsReflexive(lock: Lockfile)
    ensures SameLock(lock, lock)
  {
  }

  lemma SameLockSameResolution(a: Lockfile, b: Lockfile)
    requires SameLock(a, b)
    ensures SameResolution(a, b)
  {
  }

  // ------------------------------------------------------------- what one command may change

  /** Only a successful `lock` without `--check` and `--dry-run` changes the file. */
  lemma OnlyLockWrites(checks: Checks, command: Command, options: Options, prepared: Prepared, writable: bool,
                       path: LockPath)
    requires ValidPrepared(checks, prepared)
    requires Run(checks, command, options, prepared, writable, path).path != path
    ensures command == Lock && !options.check && !options.dryRun && writable && prepared.Created?
    ensures Run(checks, command, options, prepared, writable, path).exit == EXIT_OK
    ensures path != Unreadable
  {
  }

  /** The lockfile of this path, with an identity that some build recorded. */
  ghost predicate Records(checks: Checks, path: LockPath, lock: Lockfile)
  {
    path == Stored(Encoding(lock)) && ValidLock(checks, lock) && HasIdentity(lock)
  }

  /** The same build identity on the same resolution. */
  ghost predicate Carried(origin: Lockfile, lock: Lockfile)
  {
    && origin.backend.digest == lock.backend.digest
    && multiset(origin.artifacts) == multiset(lock.artifacts)
    && SameResolution(origin, lock)
  }

  lemma CarriedIsTransitive(a: Lockfile, b: Lockfile, c: Lockfile)
    requires Carried(a, b) && Carried(b, c)
    ensures Carried(a, c)
  {
  }

  lemma CanonicalIsCarried(lock: Lockfile)
    requires UniqueLock(lock)
    ensures Carried(lock, Canonical(lock)) && Carried(Canonical(lock), lock)
  {
    hide SameLock, SortedBy, UniqueLock;
    CanonicalIsSame(lock);
    SameLockIsSymmetric(Canonical(lock), lock);
    SameLockSameResolution(lock, Canonical(lock));
    SameLockSameResolution(Canonical(lock), lock);
  }

  /** What a writing `lock` stores. */
  lemma WrittenLock(checks: Checks, current: Lockfile, path: LockPath) returns (lock: Lockfile)
    requires ValidPrepared(checks, Created(current))
    requires Run(checks, Lock, Options(false, false), Created(current), true, path).exit == EXIT_OK
    ensures var previous := PreviousLock(checks, Lock, Options(false, false), path);
            && previous.Previous? && Refresh(previous.lock, current) == Refreshed(lock)
            && lock == if HasIdentity(previous.lock) then WithIdentity(previous.lock, current) else current
    ensures Run(checks, Lock, Options(false, false), Created(current), true, path).path ==
            Stored(Encoding(Canonical(lock)))
    ensures ValidLock(checks, lock) && ValidLock(checks, Canonical(lock)) && SameResolution(lock, current)
    ensures SameResolution(Canonical(lock), current)
  {
    hide SameLock, ValidLock, Canonical, UniqueLock, ValidTarget;
    var previous := PreviousLock(checks, Lock, Options(false, false), path);
    lock := Refresh(previous.lock, current).lock;
    RefreshedIsValid(checks, previous.lock, current);
    SuppliedFacts(checks, lock);
    CanonicalIsValid(checks, lock);
    SameLockIsReflexive(Resolution(current));
    CanonicalIsCarried(lock);
    SameLockIsTransitive(Resolution(Canonical(lock)), Resolution(lock), Resolution(current));
  }

  /** A command leaves a recorded identity alone, or carries it over an unchanged resolution. */
  lemma IdentityIsCarried(checks: Checks, command: Command, options: Options, prepared: Prepared, writable: bool,
                          path: LockPath, origin: Lockfile) returns (lock: Lockfile)
    requires ValidPrepared(checks, prepared) && Records(checks, path, origin)
    ensures Records(checks, Run(checks, command, options, prepared, writable, path).path, lock)
    ensures Carried(origin, lock)
    ensures Run(checks, command, options, prepared, writable, path).path != path ==>
              prepared.Created? && SameResolution(origin, prepared.lock)
  {
    hide SameLock, ValidLock, Canonical, UniqueLock;
    if Run(checks, command, options, prepared, writable, path).path == path {
      lock := origin;
      SameLockIsReflexive(Resolution(origin));
    } else {
      OnlyLockWrites(checks, command, options, prepared, writable, path);
      var written := WrittenLock(checks, prepared.lock, path);
      lock := Canonical(written);
      SuppliedFacts(checks, written);
      CanonicalIsCarried(written);
      CarriedKeepsIdentity(written, lock);
      CarriedIsTransitive(origin, written, lock);
    }
  }

  lemma CarriedKeepsIdentity(a: Lockfile, b: Lockfile)
    requires Carried(a, b)
    ensures HasIdentity(a) <==> HasIdentity(b)
  {
  }

  /** No command makes an identity up. */
  lemma IdentityIsNotInvented(checks: Checks, command: Command, options: Options, prepared: Prepared, writable: bool,
                              path: LockPath, lock: Lockfile)
    requires ValidPrepared(checks, prepared)
    requires Records(checks, Run(checks, command, options, prepared, writable, path).path, lock)
    ensures path.Stored? && path.contents.Encoding? && Records(checks, path, path.contents.lock)
  {
  }

  // -------------------------------------------------------------------------- whole histories

  /** A command on whatever the sources and the policy are by then, or someone else replacing the file. */
  datatype Event =
    | Ran(command: Command, options: Options, prepared: Prepared, writable: bool)
    | Replaced(path: LockPath)

  ghost predicate ValidEvents(checks: Checks, events: seq<Event>)
  {
    forall event :: event in events && event.Ran? ==> ValidPrepared(checks, event.prepared)
  }

  /** The lockfile after these events. */
  ghost function History(checks: Checks, path: LockPath, events: seq<Event>): LockPath
  {
    if |events| == 0 then path
    else
      match events[|events| - 1]
      case Replaced(other) => other
      case Ran(command, options, prepared, writable) =>
        Run(checks, command, options, prepared, writable, History(checks, path, events[..|events| - 1])).path
  }

  /**
   In every history, a stored build identity is the one that was there at the start or that the last
   replacement of the file recorded; only commands ran since, and its resolution has not changed.
   */
  lemma {:induction false} IdentityHasAnOrigin(checks: Checks, path: LockPath, events: seq<Event>, lock: Lockfile)
    returns (since: nat, origin: Lockfile)
    requires ValidEvents(checks, events) && Records(checks, History(checks, path, events), lock)
    ensures since <= |events| && (since == 0 || events[since - 1].Replaced?)
    ensures forall i :: since <= i < |events| ==> events[i].Ran?
    ensures Records(checks, History(checks, path, events[..since]), origin) && Carried(origin, lock)
  {
    hide ValidLock, SameLock, Run, ValidPrepared, HasIdentity;
    var n := |events|;
    if n == 0 || events[n - 1].Replaced? {
      since, origin := n, lock;
      assert events[..n] == events;
      SameLockIsReflexive(Resolution(lock));
    } else {
      var earlier, event := events[..n - 1], events[n - 1];
      assert event in events;
      var before := History(checks, path, earlier);
      IdentityIsNotInvented(checks, event.command, event.options, event.prepared, event.writable, before, lock);
      since, origin := IdentityHasAnOrigin(checks, path, earlier, before.contents.lock);
      var after := IdentityIsCarried(
        checks, event.command, event.options, event.prepared, event.writable, before, before.contents.lock);
      CarriedIsTransitive(origin, before.contents.lock, lock);
      assert earlier[..since] == events[..since];
    }
  }

  /** As long as only commands run, a recorded identity is neither lost nor moved to another resolution. */
  lemma {:induction false} IdentitySurvivesCommands(checks: Checks, path: LockPath, events: seq<Event>,
                                                    origin: Lockfile) returns (lock: Lockfile)
    requires ValidEvents(checks, events) && Records(checks, path, origin)
    requires forall event :: event in events ==> event.Ran?
    ensures Records(checks, History(checks, path, events), lock) && Carried(origin, lock)
  {
    hide ValidLock, SameLock, Run, ValidPrepared, HasIdentity;
    var n := |events|;
    if n == 0 {
      lock := origin;
      SameLockIsReflexive(Resolution(lock));
    } else {
      var earlier, event := events[..n - 1], events[n - 1];
      assert event in events;
      var middle := IdentitySurvivesCommands(checks, path, earlier, origin);
      lock := IdentityIsCarried(checks, event.command, event.options, event.prepared, event.writable,
                                History(checks, path, earlier), middle);
      CarriedIsTransitive(origin, middle, lock);
    }
  }

  // ------------------------------------------------------------------------ lock, then check

  /** After a successful `lock`, exactly the unchanged resolutions pass the three checks. */
  lemma LockThenCheck(checks: Checks, current: Lockfile, path: LockPath, later: Lockfile, writable: bool)
    requires ValidPrepared(checks, Created(current)) && ValidPrepared(checks, Created(later))
    requires Run(checks, Lock, Options(false, false), Created(current), true, path).exit == EXIT_OK
    ensures var stored := Run(checks, Lock, Options(false, false), Created(current), true, path).path;
            forall command, dryRun :: command == Lock || command == DiffCommand || command == Validate ==>
              var outcome := Run(checks, command, Options(true, dryRun), Created(later), writable, stored);
              && outcome.path == stored
              && outcome.exit == if SameResolution(current, later) then EXIT_OK else EXIT_STALE_LOCK
  {
    hide SameLock, ValidLock, Canonical, UniqueLock, Refresh;
    var lock := WrittenLock(checks, current, path);
    var stored := Canonical(lock);
    SameLockIsSymmetric(Resolution(stored), Resolution(current));
    if SameResolution(current, later) {
      SameLockIsTransitive(Resolution(stored), Resolution(current), Resolution(later));
    }
    if SameResolution(stored, later) {
      SameLockIsTransitive(Resolution(current), Resolution(stored), Resolution(later));
    }
  }

  /** A second `lock` succeeds and writes the same bytes. */
  lemma LockTwice(checks: Checks, current: Lockfile, path: LockPath)
    requires ValidPrepared(checks, Created(current))
    requires Run(checks, Lock, Options(false, false), Created(current), true, path).exit == EXIT_OK
    ensures var first := Run(checks, Lock, Options(false, false), Created(current), true, path);
            Run(checks, Lock, Options(false, false), Created(current), true, first.path) == first
  {
    hide SameLock, ValidLock, UniqueLock, SortedBy, Less, CanonicalTargets;
    var lock := WrittenLock(checks, current, path);
    var stored := Canonical(lock);
    SuppliedFacts(checks, lock);
    CanonicalIsCarried(lock);
    CarriedKeepsIdentity(lock, stored);
    StoredArtifactsAreSorted(lock);
  }

  lemma StoredArtifactsAreSorted(lock: Lockfile)
    requires UniqueLock(lock)
    ensures SortBy(Canonical(lock).artifacts, ArtifactPath) == Canonical(lock).artifacts
  {
    hide SortedBy, Less, CanonicalTargets;
    SortBySorts(lock.artifacts, ArtifactPath);
    SortIgnoresOrder(lock.artifacts, SortBy(lock.artifacts, ArtifactPath), ArtifactPath);
  }
}
