/** Entrypoint distances (internal/suggest/entrypoints.go). */
module Entrypoints {
  // A breadth-first search over static calls from all entrypoints at once, the initial queue sorted by
  // symbol ID.

  import opened Orders

  type SymbolId = string
  type Calls = map<SymbolId, seq<SymbolId>>

  const MAIN_PACKAGE_NAME := "main"
  const APPLICATION := "application"
  const FUNCTION_KIND := "function"

  datatype Symbol = Symbol(id: SymbolId, kind: string, packageName: string, name: string, ownership: string,
                           entrypoints: seq<string>)

  datatype EntrypointPath = EntrypointPath(depth: nat, source: string)

  predicate IsMainEntrypoint(symbol: Symbol)
  {
    && symbol.packageName == MAIN_PACKAGE_NAME && symbol.kind == FUNCTION_KIND
    && symbol.name == MAIN_PACKAGE_NAME && symbol.ownership == APPLICATION
  }

  function Join(values: seq<string>, separator: string): string
  {
    if |values| == 0 then ""
    else if |values| == 1 then values[0]
    else values[0] + separator + Join(values[1..], separator)
  }

  function EntrypointSource(symbol: Symbol): string
  {
    if IsMainEntrypoint(symbol) then
      "main.main"
    else if symbol.ownership != APPLICATION || |symbol.entrypoints| == 0 then
      ""
    else
      symbol.id + " (" + Join(CanonicalSet(symbol.entrypoints), ", ") + ")"
  }

  predicate IsEntrypoint(symbols: map<SymbolId, Symbol>, id: SymbolId)
  {
    id in symbols && EntrypointSource(symbols[id]) != ""
  }

  function Callees(calls: Calls, caller: SymbolId): seq<SymbolId>
  {
    if caller in calls then calls[caller] else []
  }

  // -------------------------------------------------------------------------- specification

  /** Some chain of exactly `n` static calls leads from `from` to `to`. */
  ghost predicate Walk(calls: Calls, from: SymbolId, to: SymbolId, n: nat)
    decreases n
  {
    if n == 0 then from == to else exists u :: Walk(calls, from, u, n - 1) && to in Callees(calls, u)
  }

  /** An entrypoint at a distance. Shorter distances come first, then smaller entrypoint IDs. */
  datatype Origin = Origin(depth: nat, id: SymbolId)

  predicate NoLaterThan(a: Origin, b: Origin)
  {
    a.depth < b.depth || (a.depth == b.depth && AtMost(a.id, b.id))
  }

  ghost predicate IsOrigin(symbols: map<SymbolId, Symbol>, calls: Calls, id: SymbolId, origin: Origin)
  {
    IsEntrypoint(symbols, origin.id) && Walk(calls, origin.id, id, origin.depth)
  }

  /** The nearest entrypoint of `id`; among equally near ones, the one with the least ID. */
  ghost predicate IsNearest(symbols: map<SymbolId, Symbol>, calls: Calls, id: SymbolId, origin: Origin)
  {
    && IsOrigin(symbols, calls, id, origin)
    && forall other :: IsOrigin(symbols, calls, id, other) ==> NoLaterThan(origin, other)
  }

  ghost predicate AreEntrypointPaths(symbols: map<SymbolId, Symbol>, calls: Calls,
                                     paths: map<SymbolId, EntrypointPath>)
  {
    && (forall id, origin :: IsOrigin(symbols, calls, id, origin) ==> id in paths)
    && (forall id :: id in paths ==>
          exists origin :: IsNearest(symbols, calls, id, origin) &&
                           paths[id] == EntrypointPath(origin.depth, EntrypointSource(symbols[origin.id])))
  }

  /** The specification leaves no choice, so neither map iteration order nor the queue shows. */
  lemma EntrypointPathsAreUnique(symbols: map<SymbolId, Symbol>, calls: Calls,
                                 first: map<SymbolId, EntrypointPath>, second: map<SymbolId, EntrypointPath>)
    requires AreEntrypointPaths(symbols, calls, first) && AreEntrypointPaths(symbols, calls, second)
    ensures first == second
  {
    forall id
      ensures id in first <==> id in second
      ensures id in first && id in second ==> first[id] == second[id]
    {
      if id in first && id in second {
        var a :| IsNearest(symbols, calls, id, a) &&
                 first[id] == EntrypointPath(a.depth, EntrypointSource(symbols[a.id]));
        var b :| IsNearest(symbols, calls, id, b) &&
                 second[id] == EntrypointPath(b.depth, EntrypointSource(symbols[b.id]));
        assert NoLaterThan(a, b) && NoLaterThan(b, a);
        LessIsTotal(a.id, b.id);
        assert a == b;
      }
    }
  }

  // ---------------------------------------------------------------------------------- search

  /**
   What the search has found for a symbol: its distance from an entrypoint, given by its position in
   the sorted list of all entrypoints. Queue order is the order of these pairs.
   */
  datatype Mark = Mark(depth: nat, rank: nat)

  predicate NoLaterMark(a: Mark, b: Mark)
  {
    a.depth < b.depth || (a.depth == b.depth && a.rank <= b.rank)
  }

  function NextMark(a: Mark): Mark
  {
    Mark(a.depth + 1, a.rank)
  }

  ghost predicate IsMark(calls: Calls, sources: seq<SymbolId>, id: SymbolId, mark: Mark)
  {
    mark.rank < |sources| && Walk(calls, sources[mark.rank], id, mark.depth)
  }

  ghost predicate Ordered(found: map<SymbolId, Mark>, queue: seq<SymbolId>)
  {
    && (forall id :: id in queue ==> id in found)
    && (forall i, j :: 0 <= i < j < |queue| ==>
          queue[i] != queue[j] && NoLaterMark(found[queue[i]], found[queue[j]]))
  }

  ghost predicate Bounded(found: map<SymbolId, Mark>, bound: Mark)
  {
    forall id :: id in found ==> NoLaterMark(found[id], bound)
  }

  /** Every call of a finished symbol was followed and reached its callee at least as well. */
  ghost predicate Followed(calls: Calls, found: map<SymbolId, Mark>, done: set<SymbolId>)
  {
    forall u, v {:trigger u in done, v in Callees(calls, u)} :: u in done && v in Callees(calls, u) ==>
      u in found && v in found && NoLaterMark(found[v], NextMark(found[u]))
  }

  ghost predicate Sound(calls: Calls, sources: seq<SymbolId>, found: map<SymbolId, Mark>)
  {
    && (forall id {:trigger IsMark(calls, sources, id, found[id])} ::
          id in found ==> IsMark(calls, sources, id, found[id]))
    && (forall r {:trigger found[sources[r]]} ::
          0 <= r < |sources| ==> sources[r] in found && found[sources[r]] == Mark(0, r))
  }

  /** Once everything found is finished, no chain of calls beats what was found. */
  lemma {:induction false} NothingNearer(calls: Calls, sources: seq<SymbolId>, found: map<SymbolId, Mark>,
                                         rank: nat, to: SymbolId, n: nat)
    requires Followed(calls, found, found.Keys) && Sound(calls, sources, found)
    requires rank < |sources| && Walk(calls, sources[rank], to, n)
    ensures to in found && NoLaterMark(found[to], Mark(n, rank))
    decreases n
  {
    if n == 0 {
    } else {
      var u :| Walk(calls, sources[rank], u, n - 1) && to in Callees(calls, u);
      NothingNearer(calls, sources, found, rank, u, n - 1);
    }
  }

  ghost function Universe(calls: Calls, sources: seq<SymbolId>): set<SymbolId>
  {
    (set id | id in sources) + (set u, v | u in calls && v in calls[u] :: v)
  }

  /** Between two symbols taken from the queue. */
  ghost predicate Searching(calls: Calls, sources: seq<SymbolId>, found: map<SymbolId, Mark>,
                            queue: seq<SymbolId>, done: set<SymbolId>)
  {
    && Sound(calls, sources, found) && Ordered(found, queue) && Followed(calls, found, done)
    && found.Keys == done + (set id | id in queue) && found.Keys <= Universe(calls, sources)
    && (forall id :: id in queue ==> id !in done)
    && (|queue| > 0 ==> Bounded(found, NextMark(found[queue[0]])))
  }

  /** While the callees of `current` are scanned: it has left the queue and is not finished. */
  ghost predicate Scanning(calls: Calls, sources: seq<SymbolId>, found: map<SymbolId, Mark>,
                           queue: seq<SymbolId>, done: set<SymbolId>, current: SymbolId)
  {
    && Sound(calls, sources, found) && Ordered(found, queue) && Followed(calls, found, done)
    && found.Keys == done + {current} + (set id | id in queue)
    && current !in done && current !in queue && (forall id :: id in queue ==> id !in done)
    && Bounded(found, NextMark(found[current]))
    && (forall id :: id in queue ==> NoLaterMark(found[current], found[id]))
    && found.Keys <= Universe(calls, sources)
  }

  lemma StartScan(calls: Calls, sources: seq<SymbolId>, found: map<SymbolId, Mark>, queue: seq<SymbolId>,
                  done: set<SymbolId>)
    requires Searching(calls, sources, found, queue, done) && |queue| > 0
    ensures Scanning(calls, sources, found, queue[1..], done, queue[0])
  {
  }

  lemma Discover(calls: Calls, sources: seq<SymbolId>, found: map<SymbolId, Mark>, queue: seq<SymbolId>,
                 done: set<SymbolId>, current: SymbolId, callee: SymbolId)
    requires Scanning(calls, sources, found, queue, done, current)
    requires callee in Callees(calls, current) && callee !in found
    ensures Scanning(calls, sources, found[callee := NextMark(found[current])], queue + [callee], done, current)
  {
    hide Sound, Ordered, Followed, Bounded, Universe, NoLaterMark, Callees;
    var found' := found[callee := NextMark(found[current])];
    var queue' := queue + [callee];
    DiscoverSoundly(calls, sources, found, current, callee);
    DiscoverInOrder(found, queue, current, callee);
    DiscoverFollowed(calls, found, done, callee, NextMark(found[current]));
    DiscoverInUniverse(calls, sources, current, callee);
    NextIsLater(found[current]);
    assert found'.Keys == done + {current} + (set id | id in queue');
  }

  lemma NextIsLater(mark: Mark)
    ensures NoLaterMark(mark, NextMark(mark))
  {
  }

  lemma DiscoverSoundly(calls: Calls, sources: seq<SymbolId>, found: map<SymbolId, Mark>, current: SymbolId,
                        callee: SymbolId)
    requires Sound(calls, sources, found) && current in found
    requires callee in Callees(calls, current) && callee !in found
    ensures Sound(calls, sources, found[callee := NextMark(found[current])])
  {
    assert IsMark(calls, sources, current, found[current]);
    assert IsMark(calls, sources, callee, NextMark(found[current]));
    hide IsMark, Callees;
    var found' := found[callee := NextMark(found[current])];
    forall id | id in found'
      ensures IsMark(calls, sources, id, found'[id])
    {
      assert id != callee ==> found'[id] == found[id] && IsMark(calls, sources, id, found[id]);
    }
    forall r | 0 <= r < |sources|
      ensures sources[r] in found' && found'[sources[r]] == Mark(0, r)
    {
      assert sources[r] !in found || found[sources[r]] == Mark(0, r);
    }
  }

  lemma DiscoverInOrder(found: map<SymbolId, Mark>, queue: seq<SymbolId>, current: SymbolId, callee: SymbolId)
    requires Ordered(found, queue) && current in found && callee !in found && Bounded(found, NextMark(found[current]))
    ensures Ordered(found[callee := NextMark(found[current])], queue + [callee])
    ensures Bounded(found[callee := NextMark(found[current])], NextMark(found[current]))
  {
  }

  lemma DiscoverFollowed(calls: Calls, found: map<SymbolId, Mark>, done: set<SymbolId>, callee: SymbolId, mark: Mark)
    requires Followed(calls, found, done) && callee !in found
    ensures Followed(calls, found[callee := mark], done)
  {
  }

  lemma DiscoverInUniverse(calls: Calls, sources: seq<SymbolId>, current: SymbolId, callee: SymbolId)
    requires callee in Callees(calls, current)
    ensures callee in Universe(calls, sources)
  {
  }

  lemma FinishScan(calls: Calls, sources: seq<SymbolId>, found: map<SymbolId, Mark>, queue: seq<SymbolId>,
                   done: set<SymbolId>, current: SymbolId)
    requires Scanning(calls, sources, found, queue, done, current)
    requires forall v :: v in Callees(calls, current) ==> v in found
    ensures Searching(calls, sources, found, queue, done + {current})
  {
  }

  /** `paths` holds what was found; `labels` are the descriptions of the sorted entrypoints. */
  ghost predicate Consistent(labels: seq<string>, found: map<SymbolId, Mark>,
                             paths: map<SymbolId, EntrypointPath>)
  {
    && found.Keys == paths.Keys
    && forall id {:trigger paths[id]} :: id in found ==>
         found[id].rank < |labels| && paths[id] == EntrypointPath(found[id].depth, labels[found[id].rank])
  }

  ghost predicate SortedSources(symbols: map<SymbolId, Symbol>, sources: seq<SymbolId>)
  {
    && (forall id :: id in sources <==> IsEntrypoint(symbols, id))
    && (forall i, j :: 0 <= i < j < |sources| ==> sources[i] != sources[j] && AtMost(sources[i], sources[j]))
  }

  method InitialQueue(symbols: map<SymbolId, Symbol>)
    returns (paths: map<SymbolId, EntrypointPath>, queue: seq<SymbolId>)
    requires forall id :: id in symbols ==> symbols[id].id == id
    ensures SortedSources(symbols, queue)
    ensures forall id :: id in paths <==> id in queue
    ensures forall id :: id in paths ==> paths[id] == EntrypointPath(0, EntrypointSource(symbols[id]))
  {
    paths, queue := map[], [];
    var rest := symbols.Keys;
    while rest != {}
      invariant rest <= symbols.Keys
      invariant forall id :: id in paths <==> id in queue
      invariant forall id :: id in queue <==> IsEntrypoint(symbols, id) && id !in rest
      invariant forall id :: id in paths ==> paths[id] == EntrypointPath(0, EntrypointSource(symbols[id]))
      invariant forall i, j :: 0 <= i < j < |queue| ==> queue[i] != queue[j]
      decreases rest
    {
      var id :| id in rest;
      rest := rest - {id};
      var symbol := symbols[id];
      var source := EntrypointSource(symbol);
      if source != "" {
        queue := queue + [symbol.id];
        paths := paths[symbol.id := EntrypointPath(0, source)];
      }
    }
    ghost var collected := queue;
    var key := (id: SymbolId) => id;
    queue := Sort(queue, key);
    SameElements(queue, collected);
    DistinctKeysOfPermutation(collected, queue, key);
    assert forall i, j :: 0 <= i < j < |queue| ==> AtMost(key(queue[i]), key(queue[j]));
  }

  /** The marks of the entrypoints themselves, before any call is followed. */
  lemma InitialMarks(calls: Calls, sources: seq<SymbolId>) returns (found: map<SymbolId, Mark>)
    requires forall i, j :: 0 <= i < j < |sources| ==> sources[i] != sources[j]
    ensures found.Keys == (set id | id in sources)
    ensures Sound(calls, sources, found) && Ordered(found, sources)
    ensures forall r :: 0 <= r < |sources| ==> found[sources[r]] == Mark(0, r)
  {
    found := map[];
    for r := 0 to |sources|
      invariant found.Keys == set id | id in sources[..r]
      invariant forall j :: 0 <= j < r ==> sources[j] in found && found[sources[j]] == Mark(0, j)
      invariant forall id :: id in found ==> found[id].rank < r && found[id] == Mark(0, found[id].rank) &&
                                             sources[found[id].rank] == id
    {
      assert sources[r] !in sources[..r];
      assert sources[..r + 1] == sources[..r] + [sources[r]];
      found := found[sources[r] := Mark(0, r)];
    }
    assert sources[..|sources|] == sources;
  }

  /** Both the queue's order and the recorded paths survive meeting a callee for the first time. */
  lemma Meet(labels: seq<string>, calls: Calls, sources: seq<SymbolId>, found: map<SymbolId, Mark>,
             paths: map<SymbolId, EntrypointPath>, queue: seq<SymbolId>, done: set<SymbolId>,
             current: SymbolId, callee: SymbolId, path: EntrypointPath)
    requires Scanning(calls, sources, found, queue, done, current) && Consistent(labels, found, paths)
    requires callee in Callees(calls, current) && callee !in paths
    requires path == EntrypointPath(paths[current].depth + 1, paths[current].source)
    ensures Scanning(calls, sources, found[callee := NextMark(found[current])], queue + [callee], done, current)
    ensures Consistent(labels, found[callee := NextMark(found[current])], paths[callee := path])
  {
    Discover(calls, sources, found, queue, done, current, callee);
    assert paths[current].depth == found[current].depth;
  }

  /** The inner loop: callees of `current` not met before join the queue, one call further away. */
  method FollowCallees(calls: Calls, current: SymbolId, oldPaths: map<SymbolId, EntrypointPath>,
                       oldQueue: seq<SymbolId>, ghost labels: seq<string>,
                       ghost sources: seq<SymbolId>, ghost oldFound: map<SymbolId, Mark>,
                       ghost done: set<SymbolId>)
    returns (paths: map<SymbolId, EntrypointPath>, queue: seq<SymbolId>, ghost found: map<SymbolId, Mark>)
    requires Scanning(calls, sources, oldFound, oldQueue, done, current)
    requires Consistent(labels, oldFound, oldPaths)
    ensures Searching(calls, sources, found, queue, done + {current})
    ensures Consistent(labels, found, paths)
  {
    hide Sound, Followed, Universe, Ordered, Searching;
    paths, queue, found := oldPaths, oldQueue, oldFound;
    var callees := Callees(calls, current);
    var k := 0;
    while k < |callees|
      invariant 0 <= k <= |callees|
      invariant Scanning(calls, sources, found, queue, done, current)
      invariant Consistent(labels, found, paths)
      invariant forall v :: v in callees[..k] ==> v in found
    {
      var callee := callees[k];
      assert callees[..k + 1] == callees[..k] + [callee] && callee in callees;
      k := k + 1;
      if callee in paths {
        continue;
      }
      var path := EntrypointPath(paths[current].depth + 1, paths[current].source);
      Meet(labels, calls, sources, found, paths, queue, done, current, callee, path);
      paths, queue := paths[callee := path], queue + [callee];
      found := found[callee := NextMark(found[current])];
    }
    assert callees[..k] == callees;
    FinishScan(calls, sources, found, queue, done, current);
  }

  /** The loop over the queue, which starts with the sorted entrypoints. */
  method FollowCalls(calls: Calls, sources: seq<SymbolId>, initial: map<SymbolId, EntrypointPath>,
                     ghost labels: seq<string>)
    returns (paths: map<SymbolId, EntrypointPath>, ghost found: map<SymbolId, Mark>)
    requires forall i, j :: 0 <= i < j < |sources| ==> sources[i] != sources[j]
    requires |labels| == |sources| && forall id :: id in initial <==> id in sources
    requires forall r :: 0 <= r < |sources| ==> initial[sources[r]] == EntrypointPath(0, labels[r])
    ensures Sound(calls, sources, found) && Followed(calls, found, found.Keys)
    ensures Consistent(labels, found, paths)
  {
    var queue := sources;
    paths := initial;
    found := InitialMarks(calls, sources);
    InitiallyConsistent(labels, sources, found, paths);
    ghost var done: set<SymbolId> := {};
    while |queue| > 0
      invariant Searching(calls, sources, found, queue, done)
      invariant Consistent(labels, found, paths)
      decreases Universe(calls, sources) - done
    {
      var current := queue[0];
      StartScan(calls, sources, found, queue, done);
      paths, queue, found :=
        FollowCallees(calls, current, paths, queue[1..], labels, sources, found, done);
      assert current in Universe(calls, sources) - done;
      done := done + {current};
    }
    assert found.Keys == done;
  }

  lemma InitiallyConsistent(labels: seq<string>, sources: seq<SymbolId>, found: map<SymbolId, Mark>,
                            paths: map<SymbolId, EntrypointPath>)
    requires |labels| == |sources| && found.Keys == (set id | id in sources)
    requires forall r :: 0 <= r < |sources| ==> found[sources[r]] == Mark(0, r)
    requires forall id :: id in paths <==> id in sources
    requires forall r :: 0 <= r < |sources| ==> paths[sources[r]] == EntrypointPath(0, labels[r])
    ensures Consistent(labels, found, paths)
  {
  }

  method EntrypointPaths(symbols: map<SymbolId, Symbol>, calls: Calls)
    returns (paths: map<SymbolId, EntrypointPath>)
    requires forall id :: id in symbols ==> symbols[id].id == id
    ensures AreEntrypointPaths(symbols, calls, paths)
  {
    var queue: seq<SymbolId>;
    ghost var found: map<SymbolId, Mark>;
    paths, queue := InitialQueue(symbols);
    ghost var labels := seq(|queue|, r requires 0 <= r < |queue| => paths[queue[r]].source);
    assert forall r :: 0 <= r < |queue| ==> queue[r] in queue && labels[r] == EntrypointSource(symbols[queue[r]]);
    hide EntrypointSource;
    paths, found := FollowCalls(calls, queue, paths, labels);
    Nearest(symbols, calls, queue, labels, found, paths);
  }

  lemma RanksFollowIds(symbols: map<SymbolId, Symbol>, sources: seq<SymbolId>, i: nat, j: nat)
    requires SortedSources(symbols, sources) && i < |sources| && j < |sources|
    ensures i <= j ==> AtMost(sources[i], sources[j])
  {
  }

  lemma NoOriginIsNearer(symbols: map<SymbolId, Symbol>, calls: Calls, sources: seq<SymbolId>,
                         found: map<SymbolId, Mark>, id: SymbolId, origin: Origin)
    requires SortedSources(symbols, sources)
    requires Sound(calls, sources, found) && Followed(calls, found, found.Keys)
    requires IsOrigin(symbols, calls, id, origin)
    ensures id in found && found[id].rank < |sources|
    ensures NoLaterThan(Origin(found[id].depth, sources[found[id].rank]), origin)
  {
    hide Walk, Followed, EntrypointSource;
    var rank :| 0 <= rank < |sources| && sources[rank] == origin.id;
    NothingNearer(calls, sources, found, rank, id, origin.depth);
    assert IsMark(calls, sources, id, found[id]);
    hide Sound, IsMark, IsEntrypoint;
    RanksFollowIds(symbols, sources, found[id].rank, rank);
  }

  lemma Nearest(symbols: map<SymbolId, Symbol>, calls: Calls, sources: seq<SymbolId>, labels: seq<string>,
                found: map<SymbolId, Mark>, paths: map<SymbolId, EntrypointPath>)
    requires |labels| == |sources| && forall r :: 0 <= r < |sources| ==>
               sources[r] in symbols && labels[r] == EntrypointSource(symbols[sources[r]])
    requires SortedSources(symbols, sources) && Consistent(labels, found, paths)
    requires Sound(calls, sources, found) && Followed(calls, found, found.Keys)
    ensures AreEntrypointPaths(symbols, calls, paths)
  {
    forall id, origin | IsOrigin(symbols, calls, id, origin)
      ensures id in found && found[id].rank < |sources|
      ensures NoLaterThan(Origin(found[id].depth, sources[found[id].rank]), origin)
    {
      NoOriginIsNearer(symbols, calls, sources, found, id, origin);
    }
    forall id | id in paths
      ensures exists origin :: IsNearest(symbols, calls, id, origin) &&
                               paths[id] == EntrypointPath(origin.depth, EntrypointSource(symbols[origin.id]))
    {
      var mark := found[id];
      assert IsMark(calls, sources, id, found[id]) && sources[mark.rank] in sources;
      assert IsNearest(symbols, calls, id, Origin(mark.depth, sources[mark.rank]));
    }
  }

  // ---------------------------------------------------------------------- what counts as one

  /** The names with a comma between any two. */
  function Listed(names: seq<string>): string
  {
    if |names| == 0 then ""
    else if |names| == 1 then names[0]
    else Listed(names[..|names| - 1]) + ", " + names[|names| - 1]
  }

  lemma {:induction false} JoinFromTheLeft(names: seq<string>)
    ensures Join(names, ", ") == Listed(names)
    decreases |names|
  {
    if |names| <= 1 {
    } else {
      JoinLast(names);
      JoinFromTheLeft(names[..|names| - 1]);
    }
  }

  lemma {:induction false} JoinLast(names: seq<string>)
    requires |names| > 1
    ensures Join(names, ", ") == Join(names[..|names| - 1], ", ") + ", " + names[|names| - 1]
  {
    var front := names[..|names| - 1];
    if |names| == 2 {
      assert Join(names[1..], ", ") == names[1] && Join(front, ", ") == names[0];
    } else {
      JoinLast(names[1..]);
      assert names[1..][..|names| - 2] == front[1..];
    }
  }

  /**
   The entrypoints are the main function of the application and its symbols with an integration; the
   latter are told by their integrations, each once and in order.
   */
  lemma EntrypointMeaning(symbols: map<SymbolId, Symbol>, id: SymbolId)
    ensures IsEntrypoint(symbols, id) <==>
            && id in symbols && symbols[id].ownership == "application"
            && (|| |symbols[id].entrypoints| > 0
                || (symbols[id].packageName == "main" && symbols[id].kind == "function" &&
                    symbols[id].name == "main"))
    ensures IsEntrypoint(symbols, id) ==>
              var symbol := symbols[id];
              if symbol.packageName == "main" && symbol.kind == "function" && symbol.name == "main"
              then EntrypointSource(symbol) == "main.main"
              else exists names ::
                && Increasing(names) && (forall name :: name in names <==> name in symbol.entrypoints)
                && EntrypointSource(symbol) == symbol.id + " (" + Listed(names) + ")"
  {
    hide CanonicalSet, Increasing, Join, Listed;
    if id in symbols {
      var symbol := symbols[id];
      CanonicalSetContains(symbol.entrypoints);
      JoinFromTheLeft(CanonicalSet(symbol.entrypoints));
    }
  }
}
