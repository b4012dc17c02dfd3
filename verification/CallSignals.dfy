/** The call evidence behind a suggestion (internal/suggest/suggest.go), including entrypoint distances. */
module CallSignals {
  import opened Entrypoints
  import Policies
  import SymbolIds

  datatype CallEdge = CallEdge(caller: SymbolId, callee: SymbolId, precision: string)

  const STATIC_PRECISION := "static"

  datatype Signals = Signals(
    staticCaller: bool, conservativeCaller: bool, infrastructure: bool, entrypoint: EntrypointPath)

  const NO_SIGNALS := Signals(false, false, false, EntrypointPath(0, ""))

  type SignalMap = map<SymbolId, Signals>

  function SignalsOf(signals: SignalMap, id: SymbolId): Signals
  {
    if id in signals then signals[id] else NO_SIGNALS
  }

  predicate InfrastructureCall(id: SymbolId)
  {
    var parsed := SymbolIds.ParseSymbolId(id);
    parsed.Parsed? && (parsed.id.importPath == "database/sql" || parsed.id.importPath == "net/http")
  }

  // -------------------------------------------------------------------------- specification

  /** Only calls of application code count. */
  predicate Counts(symbols: map<SymbolId, Symbol>, edge: CallEdge)
  {
    edge.caller in symbols && symbols[edge.caller].ownership == APPLICATION
  }

  /** A call from one known symbol to another. */
  predicate IsCall(symbols: map<SymbolId, Symbol>, edge: CallEdge, to: SymbolId)
  {
    Counts(symbols, edge) && edge.callee == to && to in symbols && edge.caller != to
  }

  predicate IsStatic(edge: CallEdge)
  {
    edge.precision == STATIC_PRECISION
  }

  ghost predicate HasStaticCaller(symbols: map<SymbolId, Symbol>, edges: seq<CallEdge>, id: SymbolId)
  {
    exists e :: e in edges && IsCall(symbols, e, id) && IsStatic(e)
  }

  ghost predicate HasConservativeCaller(symbols: map<SymbolId, Symbol>, edges: seq<CallEdge>, id: SymbolId)
  {
    exists e :: e in edges && IsCall(symbols, e, id) && !IsStatic(e)
  }

  ghost predicate CallsInfrastructure(symbols: map<SymbolId, Symbol>, edges: seq<CallEdge>, id: SymbolId)
  {
    exists e :: e in edges && Counts(symbols, e) && e.caller == id && IsStatic(e) && InfrastructureCall(e.callee)
  }

  ghost predicate StaticCall(symbols: map<SymbolId, Symbol>, edges: seq<CallEdge>, from: SymbolId, to: SymbolId)
  {
    exists e :: e in edges && IsCall(symbols, e, to) && e.caller == from && IsStatic(e)
  }

  /** The adjacency lists hold the static calls, each at least once and nothing else. */
  ghost predicate AreStaticCalls(symbols: map<SymbolId, Symbol>, edges: seq<CallEdge>, calls: Calls)
  {
    forall from, to :: IsListed(symbols, edges, calls, from, to)
  }

  ghost predicate IsListed(symbols: map<SymbolId, Symbol>, edges: seq<CallEdge>, calls: Calls, from: SymbolId,
                           to: SymbolId)
  {
    to in Callees(calls, from) <==> StaticCall(symbols, edges, from, to)
  }

  ghost predicate AreCallSignals(symbols: map<SymbolId, Symbol>, edges: seq<CallEdge>, signals: SignalMap)
  {
    forall id ::
      && (SignalsOf(signals, id).staticCaller <==> HasStaticCaller(symbols, edges, id))
      && (SignalsOf(signals, id).conservativeCaller <==> HasConservativeCaller(symbols, edges, id))
      && (SignalsOf(signals, id).infrastructure <==> CallsInfrastructure(symbols, edges, id))
  }

  ghost predicate HavePaths(signals: SignalMap, paths: map<SymbolId, EntrypointPath>)
  {
    forall id :: SignalsOf(signals, id).entrypoint == if id in paths then paths[id] else EntrypointPath(0, "")
  }

  ghost predicate IsCollected(symbols: map<SymbolId, Symbol>, edges: seq<CallEdge>, signals: SignalMap, calls: Calls,
                              paths: map<SymbolId, EntrypointPath>)
  {
    && AreCallSignals(symbols, edges, signals) && AreStaticCalls(symbols, edges, calls)
    && AreEntrypointPaths(symbols, calls, paths) && HavePaths(signals, paths)
  }

  // ----------------------------------------------------------------- order does not matter

  lemma {:induction false} SameWalks(a: Calls, b: Calls, from: SymbolId, to: SymbolId, n: nat)
    requires forall u, v :: v in Callees(a, u) <==> v in Callees(b, u)
    ensures Walk(a, from, to, n) ==> Walk(b, from, to, n)
    decreases n
  {
    hide Callees;
    if n > 0 && Walk(a, from, to, n) {
      var u :| Walk(a, from, u, n - 1) && to in Callees(a, u);
      SameWalks(a, b, from, u, n - 1);
    }
  }

  lemma SamePaths(symbols: map<SymbolId, Symbol>, a: Calls, b: Calls, paths: map<SymbolId, EntrypointPath>)
    requires forall u, v :: v in Callees(a, u) <==> v in Callees(b, u)
    requires AreEntrypointPaths(symbols, a, paths)
    ensures AreEntrypointPaths(symbols, b, paths)
  {
    hide Walk, EntrypointSource, NoLaterThan;
    forall id, origin
      ensures IsOrigin(symbols, a, id, origin) <==> IsOrigin(symbols, b, id, origin)
    {
      SameWalks(a, b, origin.id, id, origin.depth);
      SameWalks(b, a, origin.id, id, origin.depth);
    }
    forall id | id in paths
      ensures exists origin :: IsNearest(symbols, b, id, origin) &&
                               paths[id] == EntrypointPath(origin.depth, EntrypointSource(symbols[origin.id]))
    {
      var origin :| IsNearest(symbols, a, id, origin) &&
                    paths[id] == EntrypointPath(origin.depth, EntrypointSource(symbols[origin.id]));
      assert IsNearest(symbols, b, id, origin);
    }
  }

  lemma SameStaticCalls(symbols: map<SymbolId, Symbol>, edges: seq<CallEdge>, edges': seq<CallEdge>, a: Calls, b: Calls)
    requires forall e :: e in edges <==> e in edges'
    requires AreStaticCalls(symbols, edges, a) && AreStaticCalls(symbols, edges', b)
    ensures forall u, v :: v in Callees(a, u) <==> v in Callees(b, u)
  {
    hide Callees, IsCall;
    forall u, v
      ensures v in Callees(a, u) <==> v in Callees(b, u)
    {
      assert IsListed(symbols, edges, a, u, v) && IsListed(symbols, edges', b, u, v);
    }
  }

  /** The collected signals depend on which calls there are, not on their order or repetition. */
  lemma SignalsIgnoreOrder(symbols: map<SymbolId, Symbol>, edges: seq<CallEdge>, edges': seq<CallEdge>,
                           signals: SignalMap, signals': SignalMap, calls: Calls, calls': Calls,
                           paths: map<SymbolId, EntrypointPath>, paths': map<SymbolId, EntrypointPath>, id: SymbolId)
    requires forall e :: e in edges <==> e in edges'
    requires IsCollected(symbols, edges, signals, calls, paths)
    requires IsCollected(symbols, edges', signals', calls', paths')
    ensures SignalsOf(signals, id) == SignalsOf(signals', id)
  {
    hide AreEntrypointPaths, AreStaticCalls, IsCall, Counts, IsStatic, InfrastructureCall;
    SameStaticCalls(symbols, edges, edges', calls, calls');
    SamePaths(symbols, calls, calls', paths);
    EntrypointPathsAreUnique(symbols, calls', paths, paths');
    assert HasStaticCaller(symbols, edges, id) <==> HasStaticCaller(symbols, edges', id);
    assert HasConservativeCaller(symbols, edges, id) <==> HasConservativeCaller(symbols, edges', id);
    assert CallsInfrastructure(symbols, edges, id) <==> CallsInfrastructure(symbols, edges', id);
  }

  // --------------------------------------------------------------------------------- the code

  /** What one call adds to the signals of every symbol. */
  ghost predicate AddsSignals(symbols: map<SymbolId, Symbol>, edge: CallEdge, before: SignalMap, after: SignalMap)
  {
    forall id ::
      var was, now := SignalsOf(before, id), SignalsOf(after, id);
      && now.entrypoint == was.entrypoint
      && (now.staticCaller <==> was.staticCaller || (IsCall(symbols, edge, id) && IsStatic(edge)))
      && (now.conservativeCaller <==> was.conservativeCaller || (IsCall(symbols, edge, id) && !IsStatic(edge)))
      && (now.infrastructure <==>
            was.infrastructure || (edge.caller == id && IsStatic(edge) && InfrastructureCall(edge.callee)))
  }

  ghost predicate AddsCall(symbols: map<SymbolId, Symbol>, edge: CallEdge, before: Calls, after: Calls)
  {
    forall from, to :: CallAdded(symbols, edge, before, after, from, to)
  }

  ghost predicate CallAdded(symbols: map<SymbolId, Symbol>, edge: CallEdge, before: Calls, after: Calls,
                            from: SymbolId, to: SymbolId)
  {
    to in Callees(after, from) <==>
      to in Callees(before, from) || (IsCall(symbols, edge, to) && edge.caller == from && IsStatic(edge))
  }

  /** `recordCallSignal`, for a call that counts. */
  method RecordCallSignal(symbols: map<SymbolId, Symbol>, edge: CallEdge, signals: SignalMap, calls: Calls)
    returns (signals': SignalMap, calls': Calls)
    requires Counts(symbols, edge)
    ensures AddsSignals(symbols, edge, signals, signals')
    ensures AddsCall(symbols, edge, calls, calls')
  {
    hide InfrastructureCall, IsStatic;
    signals', calls' := signals, calls;
    ghost var added := edge.callee in symbols && edge.caller != edge.callee && IsStatic(edge);
    if edge.callee in symbols && edge.caller != edge.callee {
      var signal := SignalsOf(signals', edge.callee);
      if IsStatic(edge) {
        signal := signal.(staticCaller := true);
        calls' := calls'[edge.caller := Callees(calls', edge.caller) + [edge.callee]];
      } else {
        signal := signal.(conservativeCaller := true);
      }
      signals' := signals'[edge.callee := signal];
    }
    if IsStatic(edge) && InfrastructureCall(edge.callee) {
      signals' := signals'[edge.caller := SignalsOf(signals', edge.caller).(infrastructure := true)];
    }
    CallIsAdded(symbols, edge, calls, calls', added);
  }

  lemma CallIsAdded(symbols: map<SymbolId, Symbol>, edge: CallEdge, before: Calls, after: Calls, added: bool)
    requires Counts(symbols, edge)
    requires added == (edge.callee in symbols && edge.caller != edge.callee && IsStatic(edge))
    requires after == if added then before[edge.caller := Callees(before, edge.caller) + [edge.callee]] else before
    ensures AddsCall(symbols, edge, before, after)
  {
  }

  lemma OneMoreEdge(symbols: map<SymbolId, Symbol>, edges: seq<CallEdge>, k: nat, id: SymbolId, to: SymbolId)
    requires k < |edges|
    ensures HasStaticCaller(symbols, edges[..k + 1], id) <==>
            HasStaticCaller(symbols, edges[..k], id) || (IsCall(symbols, edges[k], id) && IsStatic(edges[k]))
    ensures HasConservativeCaller(symbols, edges[..k + 1], id) <==>
            HasConservativeCaller(symbols, edges[..k], id) || (IsCall(symbols, edges[k], id) && !IsStatic(edges[k]))
    ensures CallsInfrastructure(symbols, edges[..k + 1], id) <==>
            CallsInfrastructure(symbols, edges[..k], id) ||
            (Counts(symbols, edges[k]) && edges[k].caller == id && IsStatic(edges[k]) &&
             InfrastructureCall(edges[k].callee))
    ensures StaticCall(symbols, edges[..k + 1], id, to) <==>
            StaticCall(symbols, edges[..k], id, to) ||
            (IsCall(symbols, edges[k], to) && edges[k].caller == id && IsStatic(edges[k]))
  {
  }

  /** A repeated call, or one that does not count, adds nothing. */
  lemma EdgeKeeps(symbols: map<SymbolId, Symbol>, edges: seq<CallEdge>, k: nat, signals: SignalMap, calls: Calls)
    requires k < |edges| && AreCallSignals(symbols, edges[..k], signals) && AreStaticCalls(symbols, edges[..k], calls)
    requires edges[k] in edges[..k] || !Counts(symbols, edges[k])
    ensures AreCallSignals(symbols, edges[..k + 1], signals) && AreStaticCalls(symbols, edges[..k + 1], calls)
  {
    hide HasStaticCaller, HasConservativeCaller, CallsInfrastructure, StaticCall, IsStatic, InfrastructureCall, Callees;
    var more := edges[..k + 1];
    forall id: SymbolId
      ensures HasStaticCaller(symbols, more, id) <==> HasStaticCaller(symbols, edges[..k], id)
      ensures HasConservativeCaller(symbols, more, id) <==> HasConservativeCaller(symbols, edges[..k], id)
      ensures CallsInfrastructure(symbols, more, id) <==> CallsInfrastructure(symbols, edges[..k], id)
    {
      EdgeAdds(symbols, edges, k, id, id);
    }
    forall from, to
      ensures IsListed(symbols, more, calls, from, to)
    {
      assert IsListed(symbols, edges[..k], calls, from, to);
      EdgeAdds(symbols, edges, k, from, to);
    }
  }

  lemma EdgeAdds(symbols: map<SymbolId, Symbol>, edges: seq<CallEdge>, k: nat, id: SymbolId, to: SymbolId)
    requires k < |edges| && (edges[k] in edges[..k] || !Counts(symbols, edges[k]))
    ensures HasStaticCaller(symbols, edges[..k + 1], id) <==> HasStaticCaller(symbols, edges[..k], id)
    ensures HasConservativeCaller(symbols, edges[..k + 1], id) <==> HasConservativeCaller(symbols, edges[..k], id)
    ensures CallsInfrastructure(symbols, edges[..k + 1], id) <==> CallsInfrastructure(symbols, edges[..k], id)
    ensures StaticCall(symbols, edges[..k + 1], id, to) <==> StaticCall(symbols, edges[..k], id, to)
  {
  }

  /** `collectCallSignals`, for the call edges if there is a call graph. */
  method CollectCallSignals(symbols: map<SymbolId, Symbol>, graph: Policies.Option<seq<CallEdge>>)
    returns (signals: SignalMap)
    requires forall id :: id in symbols ==> symbols[id].id == id
    ensures graph.None? ==> signals == map[]
    ensures graph.Some? ==> exists calls, paths :: IsCollected(symbols, graph.value, signals, calls, paths)
  {
    hide AreEntrypointPaths, AreCallSignals, AreStaticCalls;
    if graph.None? {
      return map[];
    }
    var edges := graph.value;
    var found, calls := ScanEdges(symbols, edges);
    var distances := EntrypointPaths(symbols, calls);
    signals := found;
    var rest := distances.Keys;
    while rest != {}
      invariant rest <= distances.Keys
      invariant forall id :: SignalsOf(signals, id) ==
                  SignalsOf(found, id).(entrypoint := if id in distances && id !in rest then distances[id]
                                                      else EntrypointPath(0, ""))
      decreases rest
    {
      var id :| id in rest;
      signals := signals[id := SignalsOf(signals, id).(entrypoint := distances[id])];
      rest := rest - {id};
    }
    SameSignals(symbols, edges, found, signals);
    assert IsCollected(symbols, edges, signals, calls, distances);
  }

  lemma SameSignals(symbols: map<SymbolId, Symbol>, edges: seq<CallEdge>, a: SignalMap, b: SignalMap)
    requires AreCallSignals(symbols, edges, a)
    requires forall id :: SignalsOf(b, id) == SignalsOf(a, id).(entrypoint := SignalsOf(b, id).entrypoint)
    ensures AreCallSignals(symbols, edges, b)
  {
  }

  /** The loop over the call edges, which skips repeated ones. */
  method ScanEdges(symbols: map<SymbolId, Symbol>, edges: seq<CallEdge>) returns (signals: SignalMap, calls: Calls)
    ensures AreCallSignals(symbols, edges, signals) && AreStaticCalls(symbols, edges, calls)
    ensures forall id :: SignalsOf(signals, id).entrypoint == EntrypointPath(0, "")
  {
    hide AreCallSignals, AreStaticCalls, Counts, AddsCall, IsCall, IsStatic;
    signals, calls := map[], map[];
    var seen: set<CallEdge> := {};
    NoEdges(symbols);
    for k := 0 to |edges|
      invariant AreCallSignals(symbols, edges[..k], signals) && AreStaticCalls(symbols, edges[..k], calls)
      invariant forall id :: SignalsOf(signals, id).entrypoint == EntrypointPath(0, "")
      invariant forall e :: e in seen <==> e in edges[..k]
    {
      var edge := edges[k];
      assert edges[..k + 1] == edges[..k] + [edge];
      if edge in seen {
        EdgeKeeps(symbols, edges, k, signals, calls);
        continue;
      }
      seen := seen + {edge};
      if !Counts(symbols, edge) {
        EdgeKeeps(symbols, edges, k, signals, calls);
        continue;
      }
      ghost var before, earlier := signals, calls;
      signals, calls := RecordCallSignal(symbols, edge, signals, calls);
      EdgeRecorded(symbols, edges, k, before, earlier, signals, calls);
    }
    assert edges[..|edges|] == edges;
  }

  lemma NoEdges(symbols: map<SymbolId, Symbol>)
    ensures AreCallSignals(symbols, [], map[]) && AreStaticCalls(symbols, [], map[])
  {
  }

  lemma EdgeRecorded(symbols: map<SymbolId, Symbol>, edges: seq<CallEdge>, k: nat, signals: SignalMap, calls: Calls,
                     signals': SignalMap, calls': Calls)
    requires k < |edges| && AreCallSignals(symbols, edges[..k], signals) && AreStaticCalls(symbols, edges[..k], calls)
    requires Counts(symbols, edges[k])
    requires AddsSignals(symbols, edges[k], signals, signals')
    requires AddsCall(symbols, edges[k], calls, calls')
    ensures AreCallSignals(symbols, edges[..k + 1], signals') && AreStaticCalls(symbols, edges[..k + 1], calls')
  {
    hide HasStaticCaller, HasConservativeCaller, CallsInfrastructure, StaticCall, IsStatic, InfrastructureCall, IsCall;
    var more := edges[..k + 1];
    forall id: SymbolId
      ensures HasStaticCaller(symbols, more, id) <==> SignalsOf(signals', id).staticCaller
      ensures HasConservativeCaller(symbols, more, id) <==> SignalsOf(signals', id).conservativeCaller
      ensures CallsInfrastructure(symbols, more, id) <==> SignalsOf(signals', id).infrastructure
    {
      OneMoreEdge(symbols, edges, k, id, id);
    }
    forall from, to
      ensures IsListed(symbols, more, calls', from, to)
    {
      assert IsListed(symbols, edges[..k], calls, from, to) && CallAdded(symbols, edges[k], calls, calls', from, to);
      OneMoreEdge(symbols, edges, k, from, to);
    }
  }

  // ------------------------------------------------------------------------ what counts, spelled out

  /** A call from application code. */
  ghost predicate FromApplication(symbols: map<SymbolId, Symbol>, edges: seq<CallEdge>, e: CallEdge)
  {
    e in edges && e.caller in symbols && symbols[e.caller].ownership == "application"
  }

  /** The package of the callee is one that reaches a database or the network. */
  predicate IsInfrastructure(id: SymbolId)
  {
    match SymbolIds.ParseSymbolId(id)
    case Parsed(parsed) => parsed.importPath in {"database/sql", "net/http"}
    case _ => false
  }

  /**
   A symbol has a static caller if application code other than itself calls it with static precision,
   a conservative caller if with any other, and calls infrastructure if it is application code that
   statically calls into one of those packages.
   */
  lemma SignalMeaning(symbols: map<SymbolId, Symbol>, edges: seq<CallEdge>, signals: SignalMap, id: SymbolId)
    requires AreCallSignals(symbols, edges, signals)
    ensures SignalsOf(signals, id).staticCaller <==>
            id in symbols && exists e :: FromApplication(symbols, edges, e) && e.callee == id && e.caller != id &&
                                         e.precision == "static"
    ensures SignalsOf(signals, id).conservativeCaller <==>
            id in symbols && exists e :: FromApplication(symbols, edges, e) && e.callee == id && e.caller != id &&
                                         e.precision != "static"
    ensures SignalsOf(signals, id).infrastructure <==>
            exists e :: FromApplication(symbols, edges, e) && e.caller == id && e.precision == "static" &&
                        IsInfrastructure(e.callee)
  {
    hide SymbolIds.ParseSymbolId;
    assert SignalsOf(signals, id).staticCaller <==> HasStaticCaller(symbols, edges, id);
    assert SignalsOf(signals, id).conservativeCaller <==> HasConservativeCaller(symbols, edges, id);
    assert SignalsOf(signals, id).infrastructure <==> CallsInfrastructure(symbols, edges, id);
    forall e
      ensures IsInfrastructure(e) <==> InfrastructureCall(e)
    {
    }
    hide IsInfrastructure, InfrastructureCall;
    forall e
      ensures e in edges && Counts(symbols, e) <==> FromApplication(symbols, edges, e)
    {
    }
  }

  /** The search for entrypoints follows the static calls of application code between different known symbols. */
  lemma SearchedCalls(symbols: map<SymbolId, Symbol>, edges: seq<CallEdge>, calls: Calls, from: SymbolId, to: SymbolId)
    requires AreStaticCalls(symbols, edges, calls)
    ensures (from in calls && to in calls[from]) <==>
            to in symbols && from != to &&
            exists e :: FromApplication(symbols, edges, e) && e.caller == from && e.callee == to &&
                        e.precision == "static"
  {
    assert IsListed(symbols, edges, calls, from, to);
  }
}
