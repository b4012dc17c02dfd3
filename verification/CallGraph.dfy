/**
 Directed graphs over `0..n`, as the analyzer stores static calls: `g[caller]` lists the callees of
 `caller`, possibly with repetitions.
 */
module CallGraph {

  type Graph = seq<seq<nat>>

  ghost predicate ValidGraph(g: Graph)
  {
    forall u, v :: 0 <= u < |g| && v in g[u] ==> v < |g|
  }

  /** A non-empty sequence of nodes, each one called by the node before it. */
  ghost predicate IsPath(g: Graph, p: seq<nat>)
  {
    && |p| > 0
    && (forall i :: 0 <= i < |p| ==> p[i] < |g|)
    && (forall i :: 0 <= i < |p| - 1 ==> p[i + 1] in g[p[i]])
  }

  ghost predicate PathFromTo(g: Graph, p: seq<nat>, u: nat, v: nat)
  {
    IsPath(g, p) && p[0] == u && p[|p| - 1] == v
  }

  ghost predicate Reach(g: Graph, u: nat, v: nat)
  {
    exists p :: PathFromTo(g, p, u, v)
  }

  /** A call path with at least one call leads from `u` back to `u`. */
  ghost predicate OnCycle(g: Graph, u: nat)
  {
    exists p :: PathFromTo(g, p, u, u) && |p| > 1
  }

  /** `u` and `v` belong to the same strongly connected component. */
  ghost predicate Connected(g: Graph, u: nat, v: nat)
  {
    Reach(g, u, v) && Reach(g, v, u)
  }

  /** `reverse[v]` lists exactly the callers of `v`. */
  ghost predicate IsReverse(g: Graph, reverse: Graph)
  {
    && |reverse| == |g|
    && ValidGraph(reverse)
    && forall u, v :: 0 <= u < |g| && 0 <= v < |g| ==> (u in reverse[v] <==> v in g[u])
  }

  lemma ReachSelf(g: Graph, u: nat)
    requires u < |g|
    ensures Reach(g, u, u)
  {
    assert PathFromTo(g, [u], u, u);
  }

  lemma ReachEdge(g: Graph, u: nat, v: nat)
    requires u < |g| && v < |g| && v in g[u]
    ensures Reach(g, u, v)
  {
    assert PathFromTo(g, [u, v], u, v);
  }

  lemma ReachThrough(g: Graph, u: nat, v: nat, w: nat)
    requires Reach(g, u, v) && Reach(g, v, w)
    ensures Reach(g, u, w)
  {
    var p :| PathFromTo(g, p, u, v);
    var q :| PathFromTo(g, q, v, w);
    assert PathFromTo(g, p + q[1..], u, w);
  }

  lemma ConnectedThrough(g: Graph, u: nat, v: nat, w: nat)
    requires Connected(g, u, v) && Connected(g, v, w)
    ensures Connected(g, u, w)
  {
    ReachThrough(g, u, v, w);
    ReachThrough(g, w, v, u);
  }

  /** Every node of a path is reached from its start and reaches its end. */
  lemma PathSplit(g: Graph, p: seq<nat>, i: nat)
    requires IsPath(g, p) && i < |p|
    ensures Reach(g, p[0], p[i]) && Reach(g, p[i], p[|p| - 1])
  {
    assert PathFromTo(g, p[..i + 1], p[0], p[i]);
    assert PathFromTo(g, p[i..], p[i], p[|p| - 1]);
  }

  /** A component lies on a cycle iff it has two members or its only member calls itself. */
  lemma CycleOfComponent(g: Graph, start: nat, m: nat, large: bool)
    requires start < |g| && Connected(g, m, start)
    requires large <==> exists n: nat :: Connected(g, n, start) && n != start
    ensures OnCycle(g, m) <==> large || start in g[start]
  {
    if OnCycle(g, m) && !large {
      var p :| PathFromTo(g, p, m, m) && |p| > 1;
      PathSplit(g, p, 1);
      ConnectedThrough(g, p[1], m, start);
      assert m == start && p[1] == start;
    }
    if large || start in g[start] {
      var other: nat := start;
      if large {
        var n: nat :| Connected(g, n, start) && n != start;
        other := if m == start then n else start;
        ConnectedThrough(g, m, start, n);
        ReachSelf(g, start);
      } else {
        assert m == start;
        ReachEdge(g, start, start);
      }
      assert Connected(g, m, other);
      if large {
        var p :| PathFromTo(g, p, m, other);
        var q :| PathFromTo(g, q, other, m);
        assert m != other;
        assert PathFromTo(g, p + q[1..], m, m) && |p + q[1..]| > 1;
      } else {
        assert PathFromTo(g, [start, start], m, m);
      }
    }
  }
}
