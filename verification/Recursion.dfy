/** Recursion analysis (internal/discovery/recursion.go): Kosaraju's algorithm. */
module Recursion {
  // A depth-first search lists nodes in postorder; taking that list backwards, each worklist over
  // reversed edges collects one strongly connected component, and the symbols of components that lie on
  // a cycle are marked.

  import opened CallGraph

  datatype Symbol = Symbol(id: string, recursive: bool)

  ghost predicate Distinct(s: seq<nat>)
  {
    forall i, j :: 0 <= i < j < |s| ==> s[i] != s[j]
  }

  // ------------------------------------------------------------------------------ postorder

  /**
   What the finished node `u` owes to a node `v` it reaches while `open` nodes are still being
   visited: either a node of u's component is still open, or `v` is finished and some node of u's
   component finished no earlier than `v`.
   */
  ghost predicate Settled(g: Graph, order: seq<nat>, open: set<nat>, u: nat, v: nat)
  {
    || (exists y :: y in open && Connected(g, u, y))
    || (exists i, j :: 0 <= j <= i < |order| && order[j] == v && Connected(g, u, order[i]))
  }

  ghost predicate Postorder(g: Graph, seen: seq<bool>, order: seq<nat>, open: set<nat>)
  {
    && |seen| == |g|
    && Distinct(order)
    && (forall x :: x in order ==> x < |g| && seen[x] && x !in open)
    && (forall x :: x in open ==> x < |g| && seen[x])
    && (forall x :: 0 <= x < |g| && seen[x] ==> x in order || x in open)
    && (forall u, v :: u in order && v in g[u] ==> v < |g| && seen[v])
    && (forall u, v :: u in order && Reach(g, u, v) ==> Settled(g, order, open, u, v))
  }

  /** Following calls from a node about to finish leads to finished nodes or to its own component. */
  lemma {:induction false} LeaveFinished(g: Graph, seen: seq<bool>, order: seq<nat>, open: set<nat>, x: nat,
                                         p: seq<nat>)
    requires ValidGraph(g) && Postorder(g, seen, order, open) && x in open
    requires forall v :: v in g[x] ==> seen[v]
    requires forall y :: y in open ==> Reach(g, y, x)
    requires IsPath(g, p) && Reach(g, x, p[0]) && (p[0] in order || p[0] == x)
    ensures p[|p| - 1] in order + [x] || exists y :: y in open - {x} && Connected(g, x, y)
    decreases |p|
  {
    if |p| > 1 {
      assert p[0 + 1] in g[p[0]];
      ReachEdge(g, p[0], p[1]);
      ReachThrough(g, x, p[0], p[1]);
      if p[1] in order || p[1] == x {
        LeaveFinished(g, seen, order, open, x, p[1..]);
      } else {
        assert p[1] in open - {x} && Connected(g, x, p[1]);
      }
    }
  }

  lemma Finish(g: Graph, seen: seq<bool>, order: seq<nat>, open: set<nat>, x: nat)
    requires ValidGraph(g) && Postorder(g, seen, order, open) && x in open
    requires forall v :: v in g[x] ==> seen[v]
    requires forall y :: y in open ==> Reach(g, y, x)
    ensures Postorder(g, seen, order + [x], open - {x})
  {
    var order', open' := order + [x], open - {x};
    ReachSelf(g, x);
    forall v | Reach(g, x, v)
      ensures (exists y :: y in open' && Connected(g, x, y)) || v in order'
    {
      var p :| PathFromTo(g, p, x, v);
      LeaveFinished(g, seen, order, open, x, p);
    }
    forall u, v | u in order' && Reach(g, u, v)
      ensures Settled(g, order', open', u, v)
    {
      if u != x && exists i, j :: 0 <= j <= i < |order| && order[j] == v && Connected(g, u, order[i]) {
        var i, j :| 0 <= j <= i < |order| && order[j] == v && Connected(g, u, order[i]);
        assert order'[j] == v && order'[i] == order[i];
      } else if exists y :: y in open' && Connected(g, u, y) {
      } else {
        assert Connected(g, u, x);
        ReachThrough(g, x, u, v);
        if y :| y in open' && Connected(g, x, y) {
          ConnectedThrough(g, u, x, y);
        } else {
          var j :| 0 <= j < |order'| && order'[j] == v;
          assert order'[|order|] == x;
        }
      }
    }
  }

  /** The state of `recursiveCallOrder`: its closure `visit` updates `seen` and `order`. */
  class CallOrder {
    const edges: Graph
    const seen: array<bool>
    var order: seq<nat>

    constructor (edges: Graph)
      ensures this.edges == edges && fresh(seen) && seen.Length == |edges|
      ensures Postorder(edges, seen[..], order, {}) && order == []
    {
      this.edges := edges;
      seen := new bool[|edges|](_ => false);
      order := [];
    }

    ghost function Unseen(): set<nat>
      reads seen
    {
      set i: nat | i < seen.Length && !seen[i]
    }

    method Visit(node: nat, ghost open: set<nat>)
      requires ValidGraph(edges) && node < |edges|
      requires seen.Length == |edges| && Postorder(edges, seen[..], order, open)
      requires forall y :: y in open ==> Reach(edges, y, node)
      modifies this`order, seen
      ensures Postorder(edges, seen[..], order, open)
      ensures seen[node] && old(order) <= order
      ensures forall i :: 0 <= i < |edges| && old(seen[i]) ==> seen[i]
      decreases Unseen()
    {
      if seen[node] {
        return;
      }
      ghost var before := Unseen();
      ghost var stack := open + {node};
      seen[node] := true;
      assert node in before && node !in Unseen();
      ReachSelf(edges, node);
      for k := 0 to |edges[node]|
        invariant Postorder(edges, seen[..], order, stack)
        invariant old(order) <= order && seen[node]
        invariant forall i :: 0 <= i < |edges| && old(seen[i]) ==> seen[i]
        invariant forall j :: 0 <= j < k ==> edges[node][j] < |edges| && seen[edges[node][j]]
      {
        var callee := edges[node][k];
        assert callee in edges[node];
        ReachEdge(edges, node, callee);
        forall y | y in stack
          ensures Reach(edges, y, callee)
        {
          ReachThrough(edges, y, node, callee);
        }
        assert Unseen() < before by {
          assert node in before && node !in Unseen();
          assert Unseen() <= before;
        }
        Visit(callee, stack);
      }
      Finish(edges, seen[..], order, stack, node);
      order := order + [node];
      assert stack - {node} == open;
    }
  }

  /** The finished search: a list of all nodes, each node settled against all it reaches. */
  ghost predicate IsPostorder(g: Graph, order: seq<nat>)
  {
    && Distinct(order)
    && (forall x :: x in order ==> x < |g|)
    && (forall x :: 0 <= x < |g| ==> x in order)
    && (forall u, v {:trigger Settled(g, order, {}, u, v)} ::
          0 <= u < |g| && Reach(g, u, v) ==> Settled(g, order, {}, u, v))
  }

  method RecursiveCallOrder(edges: Graph) returns (order: seq<nat>)
    requires ValidGraph(edges)
    ensures IsPostorder(edges, order)
  {
    var search := new CallOrder(edges);
    for node := 0 to |edges|
      invariant Postorder(edges, search.seen[..], search.order, {})
      invariant search.edges == edges && fresh(search) && fresh(search.seen) && search.seen.Length == |edges|
      invariant forall i :: 0 <= i < node ==> search.seen[i]
    {
      search.Visit(node, {});
    }
    order := search.order;
  }

  // ----------------------------------------------------------------------------- components

  /** No component is split by `seen`. */
  ghost predicate WholeComponents(g: Graph, seen: seq<bool>)
  {
    && |seen| == |g|
    && forall u, v {:trigger Connected(g, u, v)} ::
         0 <= u < |g| && 0 <= v < |g| && Connected(g, u, v) ==> seen[u] == seen[v]
  }

  /** A call path into the component's start stays inside `members`, which is closed under callers. */
  lemma {:induction false} CollectBackwards(g: Graph, reverse: Graph, members: seq<nat>, start: nat, p: seq<nat>)
    requires IsReverse(g, reverse) && IsPath(g, p) && Connected(g, p[0], start) && p[|p| - 1] == start
    requires start in members
    requires forall x, c :: x in members && x < |g| && c in reverse[x] && Connected(g, c, start) ==> c in members
    ensures p[0] in members
    decreases |p|
  {
    if |p| > 1 {
      assert p[0 + 1] in g[p[0]];
      PathSplit(g, p, 1);
      ReachThrough(g, start, p[0], p[1]);
      CollectBackwards(g, reverse, members, start, p[1..]);
      assert p[0] in reverse[p[1]];
    }
  }

  /** Popping the last pending node into the members keeps all nodes, without repetition. */
  lemma TakeLast(members: seq<nat>, pending: seq<nat>)
    requires |pending| > 0 && Distinct(members + pending)
    ensures Distinct((members + [pending[|pending| - 1]]) + pending[..|pending| - 1])
    ensures pending[|pending| - 1] !in members
    ensures forall x :: x in (members + [pending[|pending| - 1]]) + pending[..|pending| - 1]
                    <==> x in members + pending
  {
    var all, last := members + pending, |pending| - 1;
    var moved := (members + [pending[last]]) + pending[..last];
    forall i | 0 <= i < |moved|
      ensures moved[i] == all[if i == |members| then |all| - 1 else if i < |members| then i else i - 1]
    {
    }
    assert all[|all| - 1] == pending[last];
    forall i | 0 <= i < |members|
      ensures members[i] != pending[last]
    {
      assert all[i] == members[i];
    }
    forall x | x in all
      ensures x in moved
    {
      var i :| 0 <= i < |all| && all[i] == x;
      assert moved[if i == |all| - 1 then |members| else if i < |members| then i else i + 1] == x;
    }
  }

  ghost function Missing(g: Graph, members: seq<nat>): set<nat>
  {
    set x: nat | x < |g| && x !in members
  }

  method RecursiveCallComponent(ghost g: Graph, reverse: Graph, seen: array<bool>, start: nat)
    returns (members: seq<nat>)
    requires ValidGraph(g) && IsReverse(g, reverse) && seen.Length == |g| && start < |g|
    requires !seen[start] && WholeComponents(g, seen[..])
    requires forall w :: 0 <= w < |g| && !seen[w] && Reach(g, w, start) ==> Connected(g, w, start)
    modifies seen
    ensures Distinct(members)
    ensures forall w: nat :: w in members <==> Connected(g, w, start)
    ensures forall w :: 0 <= w < |g| ==> seen[w] == (old(seen[w]) || w in members)
  {
    members := [];
    var pending: seq<nat> := [start];
    seen[start] := true;
    ReachSelf(g, start);
    while |pending| > 0
      invariant Distinct(members + pending) && start in members + pending
      invariant forall x :: x in members + pending ==> x < |g| && !old(seen[x]) && Connected(g, x, start)
      invariant forall w :: 0 <= w < |g| ==> seen[w] == (old(seen[w]) || w in members + pending)
      invariant forall x, c :: x in members && x < |g| && c in reverse[x] ==> c < |g| && seen[c]
      decreases Missing(g, members)
    {
      ghost var members0: seq<nat> := members;
      ghost var pending0: seq<nat> := pending;
      var node := pending[|pending| - 1];
      pending := pending[..|pending| - 1];
      members := members + [node];
      TakeLast(members0, pending0);
      assert forall x :: x in members + pending <==> x in members0 + pending0;
      assert node in members0 + pending0;
      for k := 0 to |reverse[node]|
        invariant Distinct(members + pending) && start in members + pending
        invariant forall x :: x in members + pending ==> x < |g| && !old(seen[x]) && Connected(g, x, start)
        invariant forall w :: 0 <= w < |g| ==> seen[w] == (old(seen[w]) || w in members + pending)
        invariant forall x, c :: x in members0 && x < |g| && c in reverse[x] ==> c < |g| && seen[c]
        invariant forall j :: 0 <= j < k ==> reverse[node][j] < |g| && seen[reverse[node][j]]
      {
        var caller := reverse[node][k];
        assert caller in reverse[node];
        if !seen[caller] {
          assert node in g[caller] ==> Reach(g, caller, start) by {
            if node in g[caller] {
              ReachEdge(g, caller, node);
              ReachThrough(g, caller, node, start);
            }
          }
          seen[caller] := true;
          ghost var pending1: seq<nat> := pending;
          pending := pending + [caller];
          assert members + pending == (members + pending1) + [caller];
          assert caller !in members + pending1;
          assert Connected(g, caller, start);
        }
      }
      assert node in Missing(g, members0) && node !in Missing(g, members);
      assert Missing(g, members) <= Missing(g, members0);
    }
    assert members + pending == members;
    forall w: nat | Connected(g, w, start)
      ensures w in members
    {
      forall x, c | x in members && x < |g| && c in reverse[x] && Connected(g, c, start)
        ensures c in members
      {
        assert seen[c] && !old(seen[c]);
      }
      var p :| PathFromTo(g, p, w, start);
      CollectBackwards(g, reverse, members, start, p);
    }
  }

  method ReverseEdges(edges: Graph) returns (reverse: Graph)
    requires ValidGraph(edges)
    ensures IsReverse(edges, reverse)
  {
    reverse := seq(|edges|, _ => []);
    for caller := 0 to |edges|
      invariant |reverse| == |edges| && ValidGraph(reverse)
      invariant forall u, v :: 0 <= u < |edges| && 0 <= v < |edges| ==>
                  (u in reverse[v] <==> u < caller && v in edges[u])
    {
      for k := 0 to |edges[caller]|
        invariant |reverse| == |edges| && ValidGraph(reverse)
        invariant forall u, v :: 0 <= u < |edges| && 0 <= v < |edges| ==>
                    (u in reverse[v] <==> (u < caller && v in edges[u]) || (u == caller && v in edges[caller][..k]))
      {
        var callee := edges[caller][k];
        assert callee in edges[caller];
        reverse := reverse[callee := reverse[callee] + [caller]];
        assert edges[caller][..k + 1] == edges[caller][..k] + [callee];
      }
      assert edges[caller][..|edges[caller]|] == edges[caller];
    }
  }

  /** The next start of the backwards pass heads a component none of whose nodes was collected yet. */
  lemma NextComponent(g: Graph, order: seq<nat>, seen: seq<bool>, k: nat)
    requires IsPostorder(g, order) && WholeComponents(g, seen) && k < |order|
    requires order[k] in order && !seen[order[k]]
    requires forall j :: k < j < |order| ==> order[j] < |g| && seen[order[j]]
    ensures forall w :: 0 <= w < |g| && !seen[w] && Reach(g, w, order[k]) ==> Connected(g, w, order[k])
  {
    forall w | 0 <= w < |g| && !seen[w] && Reach(g, w, order[k])
      ensures Connected(g, w, order[k])
    {
      assert Settled(g, order, {}, w, order[k]);
      var i, j :| 0 <= j <= i < |order| && order[j] == order[k] && Connected(g, w, order[i]);
      assert j == k;
      assert order[i] in order;
      assert seen[w] == seen[order[i]];
    }
  }

  lemma ComponentSize(g: Graph, start: nat, members: seq<nat>)
    requires start < |g| && Distinct(members)
    requires forall w: nat :: w in members <==> Connected(g, w, start)
    ensures |members| > 1 <==> exists n: nat :: Connected(g, n, start) && n != start
  {
    ReachSelf(g, start);
    assert start in members;
    if |members| > 1 {
      var other := if members[0] == start then members[1] else members[0];
      assert other in members && other != start;
    }
    if n: nat :| Connected(g, n, start) && n != start {
      assert n in members;
    }
  }

  lemma KeepWhole(g: Graph, before: seq<bool>, after: seq<bool>, members: seq<nat>, start: nat)
    requires WholeComponents(g, before) && |after| == |g|
    requires forall w: nat :: w in members <==> Connected(g, w, start)
    requires forall w :: 0 <= w < |g| ==> after[w] == (before[w] || w in members)
    ensures WholeComponents(g, after)
  {
    forall u, v | 0 <= u < |g| && 0 <= v < |g| && Connected(g, u, v)
      ensures after[u] == after[v]
    {
      if Connected(g, u, start) {
        ConnectedThrough(g, v, u, start);
      }
      if Connected(g, v, start) {
        ConnectedThrough(g, u, v, start);
      }
    }
  }

  /** The component collected from `order[k]`, with what decides whether its members are marked. */
  method NextCallComponent(g: Graph, reverse: Graph, seen: array<bool>, order: seq<nat>, k: nat)
    returns (component: seq<nat>)
    requires ValidGraph(g) && IsReverse(g, reverse) && seen.Length == |g| && IsPostorder(g, order)
    requires WholeComponents(g, seen[..]) && k < |order| && order[k] < |g| && !seen[order[k]]
    requires forall j :: k < j < |order| ==> order[j] < |g| && seen[order[j]]
    modifies seen
    ensures WholeComponents(g, seen[..]) && seen[order[k]]
    ensures forall m :: m in component ==>
              m < |g| && (OnCycle(g, m) <==> |component| > 1 || order[k] in g[order[k]])
    ensures forall w :: 0 <= w < |g| ==> seen[w] == (old(seen[w]) || w in component)
  {
    var start := order[k];
    assert start in order;
    NextComponent(g, order, seen[..], k);
    component := RecursiveCallComponent(g, reverse, seen, start);
    ReachSelf(g, start);
    ComponentSize(g, start, component);
    forall m | m in component
      ensures m < |g| && (OnCycle(g, m) <==> |component| > 1 || start in g[start])
    {
      CycleOfComponent(g, start, m, |component| > 1);
    }
    KeepWhole(g, old(seen[..]), seen[..], component, start);
  }

  method MarkMembers(symbols: array<Symbol>, component: seq<nat>)
    requires forall m :: m in component ==> m < symbols.Length
    modifies symbols
    ensures forall x :: 0 <= x < symbols.Length ==>
              symbols[x] == if x in component then old(symbols[x]).(recursive := true) else old(symbols[x])
  {
    for i := 0 to |component|
      invariant forall x :: 0 <= x < symbols.Length ==>
                  symbols[x] == if x in component[..i] then old(symbols[x]).(recursive := true) else old(symbols[x])
    {
      var member := component[i];
      assert member in component;
      symbols[member] := symbols[member].(recursive := true);
      assert component[..i + 1] == component[..i] + [member];
    }
    assert component[..|component|] == component;
  }

  /** `markRecursiveComponents`: a symbol ends marked iff it was marked before or lies on a cycle. */
  method MarkRecursiveComponents(symbols: array<Symbol>, edges: Graph, order: seq<nat>)
    requires ValidGraph(edges) && symbols.Length == |edges| && IsPostorder(edges, order)
    modifies symbols
    ensures forall x :: 0 <= x < |edges| ==>
              symbols[x] == old(symbols[x]).(recursive := old(symbols[x]).recursive || OnCycle(edges, x))
  {
    var reverse := ReverseEdges(edges);
    var seen := new bool[|edges|](_ => false);
    var k := |order|;
    while k > 0
      invariant 0 <= k <= |order|
      invariant WholeComponents(edges, seen[..])
      invariant forall j :: k <= j < |order| ==> order[j] < |edges| && seen[order[j]]
      invariant forall x :: 0 <= x < |edges| ==>
                  symbols[x] ==
                  old(symbols[x]).(recursive := old(symbols[x]).recursive || (seen[x] && OnCycle(edges, x)))
    {
      k := k - 1;
      var start := order[k];
      assert start in order;
      if seen[start] {
        continue;
      }
      var component := NextCallComponent(edges, reverse, seen, order, k);
      if |component| > 1 || start in edges[start] {
        MarkMembers(symbols, component);
      }
    }
    forall x | 0 <= x < |edges|
      ensures seen[x]
    {
      assert x in order;
    }
  }

  /** `addRecursionMetadata` from the collected call edges on. */
  method AddRecursionMetadata(symbols: array<Symbol>, edges: Graph)
    requires ValidGraph(edges) && symbols.Length == |edges|
    modifies symbols
    ensures forall x :: 0 <= x < |edges| ==>
              symbols[x] == old(symbols[x]).(recursive := old(symbols[x]).recursive || OnCycle(edges, x))
  {
    var order := RecursiveCallOrder(edges);
    MarkRecursiveComponents(symbols, edges, order);
  }
}
