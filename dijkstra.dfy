/**
 * Dijkstra's single-source shortest paths over a sparse `Graph`, computed once when the
 * `DijkstraSP` object is built and then answered by lookup.
 *
 * The state of the main loop is the distance vector `d`, the queue `q` (vertex to
 * priority), and two ghost records: `done`, the vertices already popped, and `paths`, a path
 * from the source that witnesses each finite entry of `d`.
 */
module DijkstraSingleSource {
  import opened Distances
  import opened SparseGraphs
  import opened PriorityQueues

  /** Edges 0..k-1 of `u` cannot improve the entries of their targets. */
  ghost predicate RelaxedFrom(g: seq<seq<Edge>>, d: seq<Dist>, u: int, k: int) {
    0 <= u < |g| && 0 <= k <= |g[u]| && |d| == |g| &&
    forall x :: 0 <= x < k ==>
      0 <= g[u][x].target < |d| && d[g[u][x].target].Le(Add(d[u], Fin(g[u][x].weight)))
  }

  /** The vertices 0..n-1. */
  ghost function Vertices(n: nat): (r: set<int>)
    ensures forall v :: v in r <==> 0 <= v < n
  {
    if n == 0 then {} else Vertices(n - 1) + {n - 1}
  }

  /** Queue priorities are the current distances, and no popped vertex is queued again. */
  ghost predicate QueueAgrees(d: seq<Dist>, q: map<int, int>, done: set<int>) {
    forall v :: v in q ==> 0 <= v < |d| && v !in done && d[v] == Fin(q[v])
  }

  /** Popped vertices are vertices with a finite distance. */
  ghost predicate DoneFinite(d: seq<Dist>, done: set<int>) {
    forall v :: v in done ==> 0 <= v < |d| && d[v].Fin?
  }

  /** A vertex never queued is still at +infinity. */
  ghost predicate UnseenInfinite(d: seq<Dist>, q: map<int, int>, done: set<int>) {
    forall v :: 0 <= v < |d| && v !in done && v !in q ==> d[v] == Inf
  }

  ghost predicate NonNegative(d: seq<Dist>) {
    forall v :: 0 <= v < |d| && d[v].Fin? ==> d[v].n >= 0
  }

  /** Every finite entry is the weight of a recorded path from the source to its vertex. */
  ghost predicate Witnessed(g: seq<seq<Edge>>, s: int, d: seq<Dist>, paths: seq<seq<Edge>>) {
    |paths| == |d| &&
    forall v :: 0 <= v < |d| && d[v].Fin? ==>
      IsPath(g, s, paths[v]) && End(s, paths[v]) == v && PathWeight(paths[v]) == d[v].n
  }

  /** No popped vertex is farther than a queued one. */
  ghost predicate DoneBelowQueue(d: seq<Dist>, q: map<int, int>, done: set<int>) {
    forall a, v :: a in done && v in q ==> 0 <= a < |d| && d[a].Le(Fin(q[v]))
  }

  /** Every edge of `a` is relaxed. */
  ghost predicate RelaxedAll(g: seq<seq<Edge>>, d: seq<Dist>, a: int) {
    0 <= a < |g| && RelaxedFrom(g, d, a, |g[a]|)
  }

  /** What holds of the loop state whatever the phase. */
  ghost predicate Common(g: seq<seq<Edge>>, s: int, d: seq<Dist>, q: map<int, int>,
                         done: set<int>, paths: seq<seq<Edge>>) {
    |d| == |g| && 0 <= s < |g| && d[s] == Fin(0) &&
    QueueAgrees(d, q, done) && DoneFinite(d, done) && UnseenInfinite(d, q, done) &&
    NonNegative(d) && Witnessed(g, s, d, paths) && DoneBelowQueue(d, q, done)
  }

  /** Between iterations of the main loop: every edge out of a popped vertex is relaxed. */
  ghost predicate Inv(g: seq<seq<Edge>>, s: int, d: seq<Dist>, q: map<int, int>,
                      done: set<int>, paths: seq<seq<Edge>>) {
    Common(g, s, d, q, done, paths) &&
    forall a :: a in done ==> RelaxedAll(g, d, a)
  }

  /**
   * While scanning the edges of the popped vertex `u`: edges 0..i-1 of `u` are relaxed, and
   * `u` is at least as far as every popped vertex.
   */
  ghost predicate ScanInv(g: seq<seq<Edge>>, s: int, d: seq<Dist>, q: map<int, int>,
                          done: set<int>, paths: seq<seq<Edge>>, u: int, i: int) {
    Common(g, s, d, q, done, paths) && ScanExtra(g, d, q, done, u, i)
  }

  /** What the scan of `u` adds to `Common`. */
  ghost predicate ScanExtra(g: seq<seq<Edge>>, d: seq<Dist>, q: map<int, int>, done: set<int>,
                            u: int, i: int) {
    u in done && u !in q && RelaxedFrom(g, d, u, i) &&
    (forall a :: a in done && a != u ==> RelaxedAll(g, d, a)) &&
    (forall a :: 0 <= a < |d| && a in done ==> d[a].Le(d[u]))
  }

  /**
   * What one edge `e` of a vertex at distance `du` does to the distances and the queue: a
   * target that `du + w` improves strictly takes that value as its distance and its priority;
   * any other edge changes nothing.
   */
  function ScanStep(d: seq<Dist>, q: map<int, int>, du: int, e: Edge): (seq<Dist>, map<int, int>) {
    if 0 <= e.target < |d| && !d[e.target].Le(Fin(du + e.weight))
    then (d[e.target := Fin(du + e.weight)], q[e.target := du + e.weight])
    else (d, q)
  }

  /** What the edges `es` of a vertex at distance `du` do, one after the other. */
  function ScanAll(d: seq<Dist>, q: map<int, int>, du: int, es: seq<Edge>): (seq<Dist>, map<int, int>)
    decreases |es|
  {
    if es == [] then (d, q)
    else
      var r := ScanAll(d, q, du, es[..|es| - 1]);
      ScanStep(r.0, r.1, du, es[|es| - 1])
  }

  /** Scanning one more edge is one more step. */
  lemma {:induction false} ScanAllSnoc(d: seq<Dist>, q: map<int, int>, du: int, es: seq<Edge>, i: int)
    requires 0 <= i < |es|
    ensures ScanAll(d, q, du, es[..i + 1]) ==
      ScanStep(ScanAll(d, q, du, es[..i]).0, ScanAll(d, q, du, es[..i]).1, du, es[i])
  {
    assert es[..i + 1][..i] == es[..i];
  }

  /**
   * Scanning the edges `es` lowers each entry to the least of its old value and `du + w` over
   * the edges `(v, w)` that point at it: no entry rises, no edge is left improvable, and a
   * changed entry is `du + w` for one of its edges.
   */
  lemma {:induction false} ScanAllDistances(d: seq<Dist>, q: map<int, int>, du: int, es: seq<Edge>)
    returns (d': seq<Dist>)
    requires forall x :: 0 <= x < |es| ==> 0 <= es[x].target < |d|
    ensures d' == ScanAll(d, q, du, es).0 && |d'| == |d|
    ensures forall v :: 0 <= v < |d| ==> d'[v].Le(d[v])
    ensures forall x :: 0 <= x < |es| ==> d'[es[x].target].Le(Fin(du + es[x].weight))
    ensures forall v :: 0 <= v < |d| && d'[v] != d[v] ==>
      exists x :: 0 <= x < |es| && es[x].target == v && d'[v] == Fin(du + es[x].weight)
    decreases |es|
  {
    if es == [] {
      d' := d;
      return;
    }
    var pre, e := es[..|es| - 1], es[|es| - 1];
    var d1 := ScanAllDistances(d, q, du, pre);
    d' := ScanStep(d1, ScanAll(d, q, du, pre).1, du, e).0;
    var t, c := e.target, du + e.weight;
    var improved := !d1[t].Le(Fin(c));
    assert d' == if improved then d1[t := Fin(c)] else d1;
    forall x | 0 <= x < |es|
      ensures d'[es[x].target].Le(Fin(du + es[x].weight))
    {
      if x < |pre| {
        assert es[x] == pre[x];
      }
    }
    forall v | 0 <= v < |d| && d'[v] != d[v]
      ensures exists x :: 0 <= x < |es| && es[x].target == v && d'[v] == Fin(du + es[x].weight)
    {
      if improved && v == t {
        assert es[|es| - 1].target == v;
      } else {
        var x :| 0 <= x < |pre| && pre[x].target == v && d1[v] == Fin(du + pre[x].weight);
        assert es[x] == pre[x];
      }
    }
  }

  /**
   * Scanning the edges `es` queues exactly the vertices whose entry it changed, each with its
   * new distance as priority, and keeps every other queue entry.
   */
  lemma {:induction false} ScanAllQueue(d: seq<Dist>, q: map<int, int>, du: int, es: seq<Edge>)
    returns (d': seq<Dist>, q': map<int, int>)
    requires forall x :: 0 <= x < |es| ==> 0 <= es[x].target < |d|
    ensures (d', q') == ScanAll(d, q, du, es) && |d'| == |d|
    ensures forall v :: v in q' <==> v in q || (0 <= v < |d| && d'[v] != d[v])
    ensures forall v :: 0 <= v < |d| && d'[v] != d[v] ==> d'[v].Fin? && q'[v] == d'[v].n
    ensures forall v :: v in q && !(0 <= v < |d| && d'[v] != d[v]) ==> q'[v] == q[v]
    decreases |es|
  {
    if es == [] {
      d', q' := d, q;
      return;
    }
    var pre, e := es[..|es| - 1], es[|es| - 1];
    var d1, q1 := ScanAllQueue(d, q, du, pre);
    var d0 := ScanAllDistances(d, q, du, pre);
    d', q' := ScanStep(d1, q1, du, e).0, ScanStep(d1, q1, du, e).1;
    var t, c := e.target, du + e.weight;
    if !d1[t].Le(Fin(c)) {
      assert d' == d1[t := Fin(c)] && q' == q1[t := c];
      assert d'[t] != d[t];
    } else {
      assert d' == d1 && q' == q1;
    }
  }

  /** The state after `d[s] = 0; pq.insert(s, 0)`. */
  lemma {:induction false} InvInit(g: seq<seq<Edge>>, s: int)
    requires 0 <= s < |g|
    ensures Inv(g, s, seq(|g|, _ => Inf)[s := Fin(0)], map[s := 0], {}, seq(|g|, _ => []))
  {
    var d := seq(|g|, _ => Inf)[s := Fin(0)];
    var paths: seq<seq<Edge>> := seq(|g|, _ => []);
    assert IsPath(g, s, paths[s]);
  }

  /** Popping a vertex of least priority starts the scan of its edges. */
  lemma {:induction false} InvPop(g: seq<seq<Edge>>, s: int, d: seq<Dist>, q: map<int, int>,
                                  done: set<int>, paths: seq<seq<Edge>>, u: int)
    requires Inv(g, s, d, q, done, paths)
    requires u in q && forall k :: k in q ==> q[u] <= q[k]
    ensures ScanInv(g, s, d, q - {u}, done + {u}, paths, u, 0)
    ensures 0 <= u < |g| && u !in done && d[u] == Fin(q[u])
  {
    var q', done' := q - {u}, done + {u};
    assert forall a :: a in done' ==> d[a].Le(d[u]);
    assert forall a, v :: a in done' && v in q' ==> d[a].Le(Fin(q'[v]));
  }

  /** Following the i-th edge of `u` on a path to `u` is a path from the source. */
  lemma {:induction false} ScanEdgeValid(g: seq<seq<Edge>>, s: int, d: seq<Dist>, q: map<int, int>,
                                         done: set<int>, paths: seq<seq<Edge>>, u: int, i: int)
    requires ScanInv(g, s, d, q, done, paths, u, i) && ReachableEdgesValid(g, s) && i < |g[u]|
    ensures 0 <= g[u][i].target < |g| && g[u][i].weight >= 0
    ensures d[u].Fin? && d[u].n >= 0
    ensures IsPath(g, s, paths[u] + [g[u][i]]) && End(s, paths[u] + [g[u][i]]) == g[u][i].target
    ensures PathWeight(paths[u] + [g[u][i]]) == d[u].n + g[u][i].weight
  {
    ExtendPath(g, s, paths[u], g[u][i]);
  }

  /** An edge that cannot improve its target (`d[u] + w >= d[t]`) is relaxed as it is. */
  lemma {:induction false} ScanSkip(g: seq<seq<Edge>>, s: int, d: seq<Dist>, q: map<int, int>,
                                    done: set<int>, paths: seq<seq<Edge>>, u: int, i: int)
    requires ScanInv(g, s, d, q, done, paths, u, i) && i < |g[u]|
    requires 0 <= g[u][i].target < |d| && d[g[u][i].target].Le(Add(d[u], Fin(g[u][i].weight)))
    ensures ScanInv(g, s, d, q, done, paths, u, i + 1)
  {
  }

  /**
   * Lowering the target `t` of the i-th edge of `u` to d[u] + w, where `t` was never popped,
   * keeps the popped vertices relaxed and relaxes that edge too.
   */
  lemma {:induction false} LowerKeepsScan(g: seq<seq<Edge>>, d: seq<Dist>, q: map<int, int>,
                                          done: set<int>, u: int, i: int)
    requires ScanExtra(g, d, q, done, u, i) && i < |g[u]|
    requires 0 <= g[u][i].target < |d| && g[u][i].target !in done
    requires Add(d[u], Fin(g[u][i].weight)).Le(d[g[u][i].target]) && d[u].Fin?
    ensures ScanExtra(g, d[g[u][i].target := Add(d[u], Fin(g[u][i].weight))],
                      q[g[u][i].target := d[u].n + g[u][i].weight], done, u, i + 1)
  {
    var t, c := g[u][i].target, Add(d[u], Fin(g[u][i].weight));
    var d' := d[t := c];
    forall a | a in done && a != u
      ensures RelaxedAll(g, d', a)
    {
      assert RelaxedAll(g, d, a);
      assert d'[a] == d[a];
    }
    assert d'[u] == d[u];
    assert RelaxedFrom(g, d', u, i + 1);
  }

  /** The target of an edge that improves it was never popped: popped vertices are no farther than `u`. */
  lemma {:induction false} RelaxTargetUnpopped(g: seq<seq<Edge>>, s: int, d: seq<Dist>, q: map<int, int>,
                                               done: set<int>, paths: seq<seq<Edge>>, u: int, i: int)
    requires ScanInv(g, s, d, q, done, paths, u, i) && i < |g[u]| && g[u][i].weight >= 0
    requires 0 <= g[u][i].target < |d| && Add(d[u], Fin(g[u][i].weight)).Lt(d[g[u][i].target])
    ensures g[u][i].target !in done && g[u][i].target != s
  {
  }

  /** Queueing a never-popped vertex `t` with its new finite distance keeps the queue facts. */
  lemma {:induction false} LowerKeepsQueue(d: seq<Dist>, q: map<int, int>, done: set<int>,
                                           t: int, c: int, u: int)
    requires QueueAgrees(d, q, done) && DoneFinite(d, done) && UnseenInfinite(d, q, done)
    requires DoneBelowQueue(d, q, done) && NonNegative(d)
    requires 0 <= t < |d| && t !in done && u in done && d[u].Fin? && d[u].n <= c
    requires forall a :: a in done ==> d[a].Le(d[u])
    ensures QueueAgrees(d[t := Fin(c)], q[t := c], done)
    ensures DoneFinite(d[t := Fin(c)], done)
    ensures UnseenInfinite(d[t := Fin(c)], q[t := c], done)
    ensures DoneBelowQueue(d[t := Fin(c)], q[t := c], done)
    ensures c >= 0 ==> NonNegative(d[t := Fin(c)])
  {
  }

  /** Recording the extended path for `t` keeps every finite entry witnessed. */
  lemma {:induction false} LowerKeepsWitnessed(g: seq<seq<Edge>>, s: int, d: seq<Dist>,
                                               paths: seq<seq<Edge>>, t: int, es: seq<Edge>)
    requires Witnessed(g, s, d, paths) && 0 <= t < |d|
    requires IsPath(g, s, es) && End(s, es) == t
    ensures Witnessed(g, s, d[t := Fin(PathWeight(es))], paths[t := es])
  {
  }

  /**
   * Lowering the target `t` of the i-th edge of `u` to `d[u] + w`, and queueing `t` with that
   * priority, keeps the invariant; `t` was never popped, so it is queued at most once.
   */
  lemma {:induction false} ScanRelax(g: seq<seq<Edge>>, s: int, d: seq<Dist>, q: map<int, int>,
                                     done: set<int>, paths: seq<seq<Edge>>, u: int, i: int)
    requires ScanInv(g, s, d, q, done, paths, u, i) && i < |g[u]|
    requires 0 <= g[u][i].target < |d| && g[u][i].weight >= 0
    requires IsPath(g, s, paths[u] + [g[u][i]]) && End(s, paths[u] + [g[u][i]]) == g[u][i].target
    requires PathWeight(paths[u] + [g[u][i]]) == d[u].n + g[u][i].weight
    requires Add(d[u], Fin(g[u][i].weight)).Lt(d[g[u][i].target])
    ensures g[u][i].target !in done && d[u].Fin?
    ensures ScanInv(g, s, d[g[u][i].target := Add(d[u], Fin(g[u][i].weight))],
                    q[g[u][i].target := d[u].n + g[u][i].weight], done,
                    paths[g[u][i].target := paths[u] + [g[u][i]]], u, i + 1)
  {
    var e := g[u][i];
    RelaxTargetUnpopped(g, s, d, q, done, paths, u, i);
    var t, c := e.target, d[u].n + e.weight;
    assert Add(d[u], Fin(e.weight)) == Fin(c);
    LowerKeepsScan(g, d, q, done, u, i);
    LowerKeepsCommon(g, s, d, q, done, paths, t, c, u, paths[u] + [e]);
  }

  /** The relaxation of one edge seen through `Common` alone. */
  lemma {:induction false} LowerKeepsCommon(g: seq<seq<Edge>>, s: int, d: seq<Dist>, q: map<int, int>,
                                            done: set<int>, paths: seq<seq<Edge>>,
                                            t: int, c: int, u: int, es: seq<Edge>)
    requires Common(g, s, d, q, done, paths)
    requires 0 <= t < |d| && t !in done && t != s && u in done && d[u].Fin? && d[u].n <= c
    requires forall a :: a in done ==> d[a].Le(d[u])
    requires IsPath(g, s, es) && End(s, es) == t && PathWeight(es) == c
    ensures Common(g, s, d[t := Fin(c)], q[t := c], done, paths[t := es])
  {
    LowerKeepsQueue(d, q, done, t, c, u);
    LowerKeepsWitnessed(g, s, d, paths, t, es);
  }

  /** Once every edge of `u` is scanned, the main-loop invariant holds again. */
  lemma {:induction false} ScanDone(g: seq<seq<Edge>>, s: int, d: seq<Dist>, q: map<int, int>,
                                    done: set<int>, paths: seq<seq<Edge>>, u: int)
    requires 0 <= u < |g| && ScanInv(g, s, d, q, done, paths, u, |g[u]|)
    ensures Inv(g, s, d, q, done, paths)
  {
  }

  /** When the queue is empty the distance vector holds the shortest distances. */
  lemma {:induction false} InvExit(g: seq<seq<Edge>>, s: int, d: seq<Dist>,
                                   done: set<int>, paths: seq<seq<Edge>>)
    requires Inv(g, s, d, map[], done, paths)
    ensures forall t :: 0 <= t < |d| ==> IsShortestDist(g, s, t, d[t])
  {
    forall u, e | 0 <= u < |g| && d[u].Fin? && e in g[u]
      ensures 0 <= e.target < |g| && d[e.target].Le(Fin(d[u].n + e.weight))
    {
      assert u in done;
      assert RelaxedAll(g, d, u);
      var x :| 0 <= x < |g[u]| && g[u][x] == e;
    }
    assert Relaxed(g, d);
    forall v | 0 <= v < |d| && d[v].Fin?
      ensures Reaches(g, s, v, d[v].n)
    {
      assert IsPath(g, s, paths[v]) && End(s, paths[v]) == v && PathWeight(paths[v]) == d[v].n;
    }
    ShortestPathCertificate(g, s, d);
  }

  /** The shortest distances from one source vertex of one sparse graph. */
  class DijkstraSP {
    const graph: Graph
    /** The edge lists of `graph` at construction time. */
    ghost const edges: seq<seq<Edge>>
    const s: int
    const dists: seq<Dist>

    ghost predicate Valid() {
      0 <= s < |edges| && |dists| == |edges| && dists[s] == Fin(0) &&
      forall t :: 0 <= t < |dists| ==> IsShortestDist(edges, s, t, dists[t])
    }

    constructor (graph: Graph, s: int)
      requires graph.Valid() && 0 <= s < |graph.edges| && ReachableEdgesValid(graph.edges, s)
      ensures Valid() && this.graph == graph && this.s == s && edges == graph.edges
    {
      var d := Dijkstra(graph, s);
      this.graph := graph;
      edges := graph.edges;
      dists := d;
      this.s := s;
    }

    /**
     * Pops a vertex of least priority until the queue is empty, relaxing its outgoing edges
     * strictly: a tie leaves the target alone, an improvement lowers it and then edits its
     * queue entry if it is queued and inserts it otherwise.
     */
    static method Dijkstra(graph: Graph, s: int) returns (dists: seq<Dist>)
      requires graph.Valid() && 0 <= s < |graph.edges| && ReachableEdgesValid(graph.edges, s)
      ensures |dists| == |graph.edges| && dists[s] == Fin(0)
      ensures forall t :: 0 <= t < |dists| ==> IsShortestDist(graph.edges, s, t, dists[t])
    {
      var g := graph.edges;
      var n := |g|;
      var d := new Dist[n](_ => Inf);
      d[s] := Fin(0);
      var pq := new PQ();
      pq.Insert(s, 0);
      ghost var done: set<int> := {};
      ghost var paths: seq<seq<Edge>> := seq(n, _ => []);
      InvInit(g, s);
      assert d[..] == seq(n, _ => Inf)[s := Fin(0)];

      while pq.Len() > 0
        invariant d.Length == n
        invariant Inv(g, s, d[..], pq.items, done, paths)
        decreases Vertices(n) - done
      {
        ghost var queued := pq.items;
        var u, priority := pq.Pop();
        InvPop(g, s, d[..], queued, done, paths, u);
        assert u in Vertices(n) - done;
        done := done + {u};
        paths := ScanEdges(g, s, d, pq, done, paths, u);
      }

      dists := d[..];
      InvExit(g, s, dists, done, paths);
    }

    /** The inner loop over the edges of the popped vertex `u`; no entry goes up. */
    static method ScanEdges(g: seq<seq<Edge>>, ghost s: int, d: array<Dist>, pq: PQ,
                            ghost done: set<int>, ghost paths: seq<seq<Edge>>, u: int)
      returns (ghost paths': seq<seq<Edge>>)
      requires d.Length == |g| && 0 <= u < |g| && ReachableEdgesValid(g, s)
      requires ScanInv(g, s, d[..], pq.items, done, paths, u, 0)
      modifies d, pq
      ensures Inv(g, s, d[..], pq.items, done, paths')
      ensures forall v :: 0 <= v < d.Length ==> d[v].Le(old(d[v]))
      ensures (d[..], pq.items) == ScanAll(old(d[..]), old(pq.items), old(d[u]).n, g[u])
    {
      paths' := paths;
      ghost var d0, q0, du := d[..], pq.items, d[u].n;
      for i := 0 to |g[u]|
        invariant ScanInv(g, s, d[..], pq.items, done, paths', u, i)
        invariant d[u] == Fin(du)
        invariant (d[..], pq.items) == ScanAll(d0, q0, du, g[u][..i])
      {
        ScanEdgeValid(g, s, d[..], pq.items, done, paths', u, i);
        paths' := RelaxEdge(g, s, d, pq, done, paths', u, i);
        ScanAllSnoc(d0, q0, du, g[u], i);
      }
      assert g[u][..|g[u]|] == g[u];
      ScanDone(g, s, d[..], pq.items, done, paths', u);
      ghost var d1 := ScanAllDistances(d0, q0, du, g[u]);
    }

    /**
     * One edge `(t, w)` of `u`: a target whose entry is already at most d[u] + w is left
     * alone; otherwise its entry becomes d[u] + w and it is queued with that priority, by
     * editing its entry when it is queued and inserting it otherwise.
     */
    static method RelaxEdge(g: seq<seq<Edge>>, ghost s: int, d: array<Dist>, pq: PQ,
                            ghost done: set<int>, ghost paths: seq<seq<Edge>>, u: int, i: int)
      returns (ghost paths': seq<seq<Edge>>)
      requires d.Length == |g| && 0 <= u < |g| && 0 <= i < |g[u]|
      requires ScanInv(g, s, d[..], pq.items, done, paths, u, i)
      requires 0 <= g[u][i].target < |g| && g[u][i].weight >= 0 && d[u].Fin?
      requires IsPath(g, s, paths[u] + [g[u][i]]) && End(s, paths[u] + [g[u][i]]) == g[u][i].target
      requires PathWeight(paths[u] + [g[u][i]]) == d[u].n + g[u][i].weight
      modifies d, pq
      ensures ScanInv(g, s, d[..], pq.items, done, paths', u, i + 1)
      ensures forall v :: 0 <= v < d.Length ==> d[v].Le(old(d[v]))
      ensures d[u] == old(d[u])
      ensures (d[..], pq.items) == ScanStep(old(d[..]), old(pq.items), old(d[u]).n, g[u][i])
      ensures old(d[g[u][i].target]).Le(Add(old(d[u]), Fin(g[u][i].weight))) ==>
        d[..] == old(d[..]) && pq.items == old(pq.items)
      ensures !old(d[g[u][i].target]).Le(Add(old(d[u]), Fin(g[u][i].weight))) ==>
        d[..] == old(d[..])[g[u][i].target := Fin(old(d[u]).n + g[u][i].weight)] &&
        pq.items == old(pq.items)[g[u][i].target := old(d[u]).n + g[u][i].weight]
    {
      paths' := paths;
      var t, w := g[u][i].target, g[u][i].weight;
      if d[t].Le(Add(d[u], Fin(w))) {
        ScanSkip(g, s, d[..], pq.items, done, paths, u, i);
        return;
      }
      ScanRelax(g, s, d[..], pq.items, done, paths, u, i);
      ghost var d0, q0 := d[..], pq.items;
      d[t] := Add(d[u], Fin(w));
      paths' := paths[t := paths[u] + [g[u][i]]];
      if pq.Contains(t) {
        pq.Edit(t, d[t].n);
      } else {
        pq.Insert(t, d[t].n);
      }
      assert d[..] == d0[t := Add(d0[u], Fin(w))];
      assert pq.items == q0[t := d0[u].n + w];
    }

    /** The cached distance from the source to `t`; nothing is recomputed. */
    function Dist(t: int): (r: Dist)
      requires Valid() && 0 <= t < |dists|
      ensures IsShortestDist(edges, s, t, r)
    {
      dists[t]
    }
  }
}
