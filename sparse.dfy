/**
 * The sparse representation: one list of outgoing `Edge(target, weight)` records per vertex,
 * and the paths that single-source shortest paths minimises over.
 */
module SparseGraphs {
  import opened Distances

  /** An outgoing edge record. */
  datatype Edge = Edge(target: int, weight: int)

  /** The vertex reached by following the edges `es` from `s`. */
  function End(s: int, es: seq<Edge>): int {
    if es == [] then s else es[|es| - 1].target
  }

  /** The total weight of the edges `es`. */
  function PathWeight(es: seq<Edge>): int
    decreases |es|
  {
    if es == [] then 0 else PathWeight(es[..|es| - 1]) + es[|es| - 1].weight
  }

  /**
   * `es` is a path of `g` from `s`: each edge is taken from the list of the vertex reached so
   * far. The empty path stays at `s`. Only membership in the lists matters, so neither the
   * order of a list nor its duplicate entries change which paths exist.
   */
  ghost predicate IsPath(g: seq<seq<Edge>>, s: int, es: seq<Edge>)
    decreases |es|
  {
    es == [] ||
    (IsPath(g, s, es[..|es| - 1]) &&
     0 <= End(s, es[..|es| - 1]) < |g| &&
     es[|es| - 1] in g[End(s, es[..|es| - 1])])
  }

  /** Extending a path by an edge of the vertex it ends at gives a path one edge longer. */
  lemma {:induction false} ExtendPath(g: seq<seq<Edge>>, s: int, es: seq<Edge>, e: Edge)
    requires IsPath(g, s, es) && 0 <= End(s, es) < |g| && e in g[End(s, es)]
    ensures IsPath(g, s, es + [e])
    ensures End(s, es + [e]) == e.target
    ensures PathWeight(es + [e]) == PathWeight(es) + e.weight
  {
    assert (es + [e])[..|es|] == es;
  }

  /**
   * Every edge on a path from `s` points at a vertex of the graph and has a non-negative
   * weight: what Dijkstra's algorithm needs of the part of the graph it can reach.
   */
  ghost predicate ReachableEdgesValid(g: seq<seq<Edge>>, s: int) {
    forall es: seq<Edge> :: IsPath(g, s, es) && es != [] ==> 0 <= End(s, es) < |g| && es[|es| - 1].weight >= 0
  }

  /** Every edge of the graph points at a vertex of the graph and has a non-negative weight. */
  ghost predicate AllEdgesValid(g: seq<seq<Edge>>) {
    forall u, e :: 0 <= u < |g| && e in g[u] ==> 0 <= e.target < |g| && e.weight >= 0
  }

  lemma {:induction false} AllEdgesValidReachable(g: seq<seq<Edge>>, s: int)
    requires AllEdgesValid(g)
    ensures ReachableEdgesValid(g, s)
  {
    forall es: seq<Edge> | IsPath(g, s, es) && es != []
      ensures 0 <= End(s, es) < |g| && es[|es| - 1].weight >= 0
    {
      var u := End(s, es[..|es| - 1]);
      assert es[|es| - 1] in g[u];
    }
  }

  /** When no edge weighs less than 0, no path does. */
  lemma {:induction false} PathWeightNonNegative(g: seq<seq<Edge>>, s: int, es: seq<Edge>)
    requires AllEdgesValid(g) && IsPath(g, s, es)
    ensures PathWeight(es) >= 0
    decreases |es|
  {
    if es != [] {
      PathWeightNonNegative(g, s, es[..|es| - 1]);
      assert es[|es| - 1] in g[End(s, es[..|es| - 1])];
    }
  }

  /** Some path from `s` to `t` weighs exactly `w`. */
  ghost predicate Reaches(g: seq<seq<Edge>>, s: int, t: int, w: int) {
    exists es :: IsPath(g, s, es) && End(s, es) == t && PathWeight(es) == w
  }

  /** `r` is the least weight of a path from `s` to `t`, and `Inf` exactly when there is none. */
  ghost predicate IsShortestDist(g: seq<seq<Edge>>, s: int, t: int, r: Dist) {
    match r
    case Inf => forall es :: IsPath(g, s, es) ==> End(s, es) != t
    case Fin(x) =>
      Reaches(g, s, t, x) &&
      forall es :: IsPath(g, s, es) && End(s, es) == t ==> x <= PathWeight(es)
  }

  /**
   * No edge out of a vertex of finite distance can improve the distance of its target, and
   * every such edge points at a vertex of the graph.
   */
  ghost predicate Relaxed(g: seq<seq<Edge>>, d: seq<Dist>) {
    |d| == |g| &&
    forall u, e :: 0 <= u < |g| && d[u].Fin? && e in g[u] ==>
      0 <= e.target < |g| && d[e.target].Le(Fin(d[u].n + e.weight))
  }

  /** In a relaxed distance vector with d[s] <= 0, no path from `s` undercuts its end's entry. */
  lemma {:induction false} RelaxedLowerBound(g: seq<seq<Edge>>, s: int, d: seq<Dist>, es: seq<Edge>)
    requires Relaxed(g, d) && 0 <= s < |g| && d[s].Le(Fin(0)) && IsPath(g, s, es)
    ensures 0 <= End(s, es) < |g| && d[End(s, es)].Le(Fin(PathWeight(es)))
    decreases |es|
  {
    if es != [] {
      var pre := es[..|es| - 1];
      RelaxedLowerBound(g, s, d, pre);
      var u := End(s, pre);
      assert es[|es| - 1] in g[u];
    }
  }

  /**
   * A distance vector is the vector of shortest distances from `s` when d[s] = 0, every
   * finite entry is the weight of a path to its vertex, and no edge can be relaxed.
   */
  lemma {:induction false} ShortestPathCertificate(g: seq<seq<Edge>>, s: int, d: seq<Dist>)
    requires 0 <= s < |g| && Relaxed(g, d) && d[s] == Fin(0)
    requires forall v :: 0 <= v < |d| && d[v].Fin? ==> Reaches(g, s, v, d[v].n)
    ensures forall t :: 0 <= t < |d| ==> IsShortestDist(g, s, t, d[t])
  {
    forall t | 0 <= t < |d|
      ensures IsShortestDist(g, s, t, d[t])
    {
      forall es | IsPath(g, s, es) && End(s, es) == t
        ensures d[t].Le(Fin(PathWeight(es)))
      {
        RelaxedLowerBound(g, s, d, es);
      }
    }
  }

  /** A shortest distance is unique. */
  lemma {:induction false} ShortestDistUnique(g: seq<seq<Edge>>, s: int, t: int, r1: Dist, r2: Dist)
    requires IsShortestDist(g, s, t, r1) && IsShortestDist(g, s, t, r2)
    ensures r1 == r2
  {
    if r1.Fin? && r2.Fin? {
      var p1 :| IsPath(g, s, p1) && End(s, p1) == t && PathWeight(p1) == r1.n;
      var p2 :| IsPath(g, s, p2) && End(s, p2) == t && PathWeight(p2) == r2.n;
    }
  }

  /**
   * A directed weighted graph over the vertices 0..size-1 holding one list of outgoing edges
   * per vertex. Parallel edges are kept as separate entries.
   */
  class Graph {
    const size: int
    var edges: seq<seq<Edge>>

    /** One list per vertex; a negative size gives no lists, as `range` does. */
    ghost predicate Valid()
      reads this
    {
      |edges| == if size < 0 then 0 else size
    }

    constructor (size: int)
      ensures Valid() && this.size == size
      ensures edges == seq(|edges|, _ => [])
    {
      this.size := size;
      edges := seq(if size < 0 then 0 else size, _ => []);
    }

    /** Adds one `Edge(t, w)` entry (default weight 1) to the list of `s`; nothing else changes. */
    method AddEdge(s: int, t: int, w: int := 1)
      requires Valid() && 0 <= s < |edges|
      modifies this
      ensures Valid() && edges == old(edges)[s := old(edges[s]) + [Edge(t, w)]]
      ensures edges[s] == old(edges[s]) + [Edge(t, w)]
      ensures multiset(edges[s]) == multiset(old(edges[s])) + multiset{Edge(t, w)}
      ensures forall v :: 0 <= v < |edges| && v != s ==> edges[v] == old(edges[v])
    {
      edges := edges[s := edges[s] + [Edge(t, w)]];
    }
  }
}
