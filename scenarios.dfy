/**
 * Small graphs built through the public operations, with their distances worked out by hand
 * and checked against both algorithms.
 */
module Scenarios {
  import opened Distances
  import opened DenseGraphs
  import opened FloydWarshall
  import opened SparseGraphs
  import opened DijkstraSingleSource

  /** The path graph 0 -> 1 -> 2 -> 3 with weights 2, 3, 1. */
  function PathEdges(): seq<seq<Edge>> {
    [[Edge(1, 2)], [Edge(2, 3)], [Edge(3, 1)], []]
  }

  /** The diamond with a shortcut: 0->1 (1), 0->2 (4), 1->2 (1), 1->3 (5), 2->3 (1). */
  function DiamondEdges(): seq<seq<Edge>> {
    [[Edge(1, 1), Edge(2, 4)], [Edge(2, 1), Edge(3, 5)], [Edge(3, 1)], []]
  }

  /** The same diamond as a weight matrix. */
  function DiamondMatrix(): seq<seq<int>> {
    [[0, 1, 4, 0], [0, 0, 1, 5], [0, 0, 0, 1], [0, 0, 0, 0]]
  }

  /** The distances from 0 in the path graph. */
  function PathDists(): seq<Dist> {
    [Fin(0), Fin(2), Fin(5), Fin(6)]
  }

  /** The distances from 0 in the diamond. */
  function DiamondDists(): seq<Dist> {
    [Fin(0), Fin(1), Fin(2), Fin(3)]
  }

  /** No edge of the path graph improves the distances 0, 2, 5, 6. */
  lemma {:induction false} PathGraphRelaxed()
    ensures Relaxed(PathEdges(), PathDists())
  {
    var g, d := PathEdges(), PathDists();
    forall u, e: Edge | 0 <= u < |g| && d[u].Fin? && e in g[u]
      ensures 0 <= e.target < |g| && d[e.target].Le(Fin(d[u].n + e.weight))
    {
      assert u < 3 && e == g[u][0];
    }
  }

  /** The path 0, 1, 2, 3 passes through every vertex with the weights 0, 2, 5 and 6. */
  lemma {:induction false} PathGraphReaches()
    ensures forall v :: 0 <= v < |PathDists()| && PathDists()[v].Fin? ==>
      Reaches(PathEdges(), 0, v, PathDists()[v].n)
  {
    var g := PathEdges();
    var e01, e12, e23 := Edge(1, 2), Edge(2, 3), Edge(3, 1);
    var routes := [[], [e01], [e01, e12], [e01, e12, e23]];
    assert IsPath(g, 0, routes[0]);
    ExtendPath(g, 0, [], e01);
    assert [] + [e01] == routes[1];
    ExtendPath(g, 0, [e01], e12);
    assert [e01] + [e12] == routes[2];
    ExtendPath(g, 0, [e01, e12], e23);
    assert [e01, e12] + [e23] == routes[3];
    forall v | 0 <= v < 4
      ensures Reaches(g, 0, v, PathDists()[v].n)
    {
      assert IsPath(g, 0, routes[v]) && End(0, routes[v]) == v && PathWeight(routes[v]) == PathDists()[v].n;
    }
  }

  /** From 0 in the path graph the distances are 0, 2, 5 and 6. */
  lemma {:induction false} PathGraphDistances()
    ensures forall t :: 0 <= t < |PathDists()| ==> IsShortestDist(PathEdges(), 0, t, PathDists()[t])
  {
    PathGraphReaches();
    PathGraphRelaxed();
    ShortestPathCertificate(PathEdges(), 0, PathDists());
  }

  /** No edge of the diamond improves the distances 0, 1, 2, 3. */
  lemma {:induction false} DiamondRelaxed()
    ensures Relaxed(DiamondEdges(), DiamondDists())
  {
    var g, d := DiamondEdges(), DiamondDists();
    forall u, e: Edge | 0 <= u < |g| && d[u].Fin? && e in g[u]
      ensures 0 <= e.target < |g| && d[e.target].Le(Fin(d[u].n + e.weight))
    {
      assert u < 3 && (e == g[u][0] || e == g[u][1]);
    }
  }

  /** The route 0, 1, 2, 3 of the diamond passes through every vertex with the weights 0, 1, 2 and 3. */
  lemma {:induction false} DiamondReaches()
    ensures forall v :: 0 <= v < |DiamondDists()| && DiamondDists()[v].Fin? ==>
      Reaches(DiamondEdges(), 0, v, DiamondDists()[v].n)
  {
    var g := DiamondEdges();
    var e01, e12, e23 := Edge(1, 1), Edge(2, 1), Edge(3, 1);
    var routes := [[], [e01], [e01, e12], [e01, e12, e23]];
    assert IsPath(g, 0, routes[0]);
    ExtendPath(g, 0, [], e01);
    assert [] + [e01] == routes[1];
    ExtendPath(g, 0, [e01], e12);
    assert [e01] + [e12] == routes[2];
    ExtendPath(g, 0, [e01, e12], e23);
    assert [e01, e12] + [e23] == routes[3];
    forall v | 0 <= v < 4
      ensures Reaches(g, 0, v, DiamondDists()[v].n)
    {
      assert IsPath(g, 0, routes[v]) && End(0, routes[v]) == v && PathWeight(routes[v]) == DiamondDists()[v].n;
    }
  }

  /** From 0 in the diamond the distances are 0, 1, 2 and 3: the route 0, 1, 2, 3 wins over 0, 2 and 1, 3. */
  lemma {:induction false} DiamondDistances()
    ensures forall t :: 0 <= t < |DiamondDists()| ==> IsShortestDist(DiamondEdges(), 0, t, DiamondDists()[t])
  {
    DiamondReaches();
    DiamondRelaxed();
    ShortestPathCertificate(DiamondEdges(), 0, DiamondDists());
  }

  /** The vertex index is a potential of the diamond matrix: no edge goes down by more than its weight. */
  lemma {:induction false} DiamondPotential()
    ensures IsSquare(DiamondMatrix()) && IsPotential(DiamondMatrix(), [0, 1, 2, 3])
  {
    var m, pot := DiamondMatrix(), [0, 1, 2, 3];
    forall i, j | 0 <= i < 4 && 0 <= j < 4 && HasEdge(m, i, j)
      ensures pot[j] <= pot[i] + m[i][j]
    {
      assert i <= j;
    }
  }

  /** The walk 0, 1, 2, 3 of the diamond matrix weighs 3. */
  lemma {:induction false} DiamondRoute()
    ensures IsSquare(DiamondMatrix()) && IsWalkBetween(DiamondMatrix(), [0, 1, 2, 3], 0, 3)
    ensures WalkWeight(DiamondMatrix(), [0, 1, 2, 3]) == 3
  {
    var m, p := DiamondMatrix(), [0, 1, 2, 3];
    assert p[1..] == [1, 2, 3] && p[1..][1..] == [2, 3];
    assert WalkWeight(m, [2, 3]) == 1;
    assert WalkWeight(m, [1, 2, 3]) == 2;
    assert HasEdge(m, 0, 1) && HasEdge(m, 1, 2) && HasEdge(m, 2, 3);
  }

  /** In the diamond matrix the least weight of a walk from 0 to 3 is 3. */
  lemma {:induction false} DiamondWalks()
    ensures IsSquare(DiamondMatrix()) && NoNegativeCycle(DiamondMatrix())
    ensures IsShortestWalk(DiamondMatrix(), 0, 3, Fin(3))
  {
    var m := DiamondMatrix();
    NonNegativeHasNoNegativeCycle(m);
    DiamondRoute();
    DiamondPotential();
    forall q | IsWalkBetween(m, q, 0, 3)
      ensures 3 <= WalkWeight(m, q)
    {
      PotentialBound(m, [0, 1, 2, 3], q);
    }
  }

  /** In the graph {0, 1} without edges, 1 is unreachable from 0. */
  lemma {:induction false} DisconnectedPair()
    ensures IsShortestDist([[], []], 0, 1, Inf)
  {
    var g: seq<seq<Edge>> := [[], []];
    assert Reaches(g, 0, 0, 0) by { assert IsPath(g, 0, []); }
    ShortestPathCertificate(g, 0, [Fin(0), Inf]);
  }

  /** In the all-zero 2×2 matrix there is no walk from 0 to 1. */
  lemma {:induction false} ZeroMatrixNoWalk()
    ensures IsSquare([[0, 0], [0, 0]]) && NoNegativeCycle([[0, 0], [0, 0]])
    ensures IsShortestWalk([[0, 0], [0, 0]], 0, 1, Inf)
  {
    var m := [[0, 0], [0, 0]];
    NonNegativeHasNoNegativeCycle(m);
    assert FW(m, 1, 0, 1) == Inf;
    assert FW(m, 2, 0, 1) == Inf;
    FloydExact(m, 0, 1);
  }

  /** A self-loop of weight 5 on the only vertex: the shortest closed walk weighs 5. */
  lemma {:induction false} SelfLoopWalk()
    ensures IsSquare([[5]]) && NoNegativeCycle([[5]])
    ensures IsShortestWalk([[5]], 0, 0, Fin(5))
  {
    var m := [[5]];
    NonNegativeHasNoNegativeCycle(m);
    assert FW(m, 1, 0, 0) == Fin(5);
    FloydExact(m, 0, 0);
  }

  /** Every edge of the path graph points at one of its vertices and weighs at least 0. */
  lemma {:induction false} PathEdgesValid()
    ensures AllEdgesValid(PathEdges())
  {
    var g := PathEdges();
    forall u, e: Edge | 0 <= u < |g| && e in g[u]
      ensures 0 <= e.target < |g| && e.weight >= 0
    {
      assert u < 3 && e == g[u][0];
    }
  }

  /** Every edge of the diamond points at one of its vertices and weighs at least 0. */
  lemma {:induction false} DiamondEdgesValid()
    ensures AllEdgesValid(DiamondEdges())
  {
    var g := DiamondEdges();
    forall u, e: Edge | 0 <= u < |g| && e in g[u]
      ensures 0 <= e.target < |g| && e.weight >= 0
    {
      assert u < 3 && (e == g[u][0] || e == g[u][1]);
    }
  }

  /** `Graph(4)` followed by the three `add_edge` calls of the path graph. */
  method BuildPathGraph() returns (g: Graph)
    ensures g.Valid() && g.edges == PathEdges()
  {
    g := new Graph(4);
    assert g.edges == [[], [], [], []];
    g.AddEdge(0, 1, 2);
    g.AddEdge(1, 2, 3);
    g.AddEdge(2, 3, 1);
    assert [] + [Edge(1, 2)] == [Edge(1, 2)] && [] + [Edge(2, 3)] == [Edge(2, 3)];
    assert [] + [Edge(3, 1)] == [Edge(3, 1)];
  }

  /** `Graph(4)` followed by the five `add_edge` calls of the diamond. */
  method BuildDiamond() returns (g: Graph)
    ensures g.Valid() && g.edges == DiamondEdges()
  {
    g := new Graph(4);
    assert g.edges == [[], [], [], []];
    g.AddEdge(0, 1, 1);
    g.AddEdge(0, 2, 4);
    assert [] + [Edge(1, 1)] + [Edge(2, 4)] == [Edge(1, 1), Edge(2, 4)];
    g.AddEdge(1, 2, 1);
    g.AddEdge(1, 3, 5);
    assert [] + [Edge(2, 1)] + [Edge(3, 5)] == [Edge(2, 1), Edge(3, 5)];
    g.AddEdge(2, 3, 1);
    assert [] + [Edge(3, 1)] == [Edge(3, 1)];
  }

  /** `DenseGraph(4)` followed by the five `add_edge` calls of the diamond. */
  method BuildDenseDiamond() returns (dg: DenseGraph)
    ensures dg.Valid() && dg.edges == DiamondMatrix()
  {
    dg := new DenseGraph(4);
    assert dg.edges == [[0, 0, 0, 0], [0, 0, 0, 0], [0, 0, 0, 0], [0, 0, 0, 0]] by {
      assert forall i :: 0 <= i < 4 ==> dg.edges[i] == [0, 0, 0, 0];
    }
    dg.AddEdge(0, 1, 1);
    dg.AddEdge(0, 2, 4);
    assert dg.edges[0] == [0, 1, 4, 0];
    dg.AddEdge(1, 2, 1);
    dg.AddEdge(1, 3, 5);
    assert dg.edges[1] == [0, 0, 1, 5];
    dg.AddEdge(2, 3, 1);
    assert dg.edges[2] == [0, 0, 0, 1];
  }

  /** `DijkstraSP(G, 0)` on the path graph: dist(1) = 2, dist(2) = 5, dist(3) = 6. */
  method PathGraphScenario() returns (d1: Dist, d2: Dist, d3: Dist)
    ensures d1 == Fin(2) && d2 == Fin(5) && d3 == Fin(6)
  {
    var g := BuildPathGraph();
    PathEdgesValid();
    AllEdgesValidReachable(g.edges, 0);
    var sp := new DijkstraSP(g, 0);
    d1, d2, d3 := sp.Dist(1), sp.Dist(2), sp.Dist(3);
    PathGraphDistances();
    ShortestDistUnique(g.edges, 0, 1, d1, PathDists()[1]);
    ShortestDistUnique(g.edges, 0, 2, d2, PathDists()[2]);
    ShortestDistUnique(g.edges, 0, 3, d3, PathDists()[3]);
  }

  /** `DijkstraSP(G, 0)` on the diamond: dist(3) = 3. */
  method DiamondDijkstraScenario() returns (sparse: Dist)
    ensures sparse == Fin(3)
  {
    var g := BuildDiamond();
    DiamondEdgesValid();
    AllEdgesValidReachable(g.edges, 0);
    var sp := new DijkstraSP(g, 0);
    sparse := sp.Dist(3);
    DiamondDistances();
    ShortestDistUnique(g.edges, 0, 3, sparse, DiamondDists()[3]);
  }

  /** `FloydAllPairsSP(G).dist(0, 3)` on the dense diamond is 3 as well. */
  method DiamondFloydScenario() returns (dense: Dist)
    ensures dense == Fin(3)
  {
    var dg := BuildDenseDiamond();
    var fl := new FloydAllPairsSP(dg);
    dense := fl.Dist(0, 3);
    DiamondWalks();
    ShortestWalkUnique(dg.edges, 0, 3, dense, Fin(3));
  }

  /** Two vertices and no edges: both algorithms report 1 unreachable from 0. */
  method DisconnectedScenario() returns (sparse: Dist, dense: Dist)
    ensures sparse == Inf && dense == Inf
  {
    var g := new Graph(2);
    assert g.edges == [[], []];
    AllEdgesValidReachable(g.edges, 0);
    var sp := new DijkstraSP(g, 0);
    sparse := sp.Dist(1);
    DisconnectedPair();
    ShortestDistUnique(g.edges, 0, 1, sparse, Inf);

    var dg := new DenseGraph(2);
    assert dg.edges[0] == [0, 0] && dg.edges[1] == [0, 0];
    assert dg.edges == [[0, 0], [0, 0]];
    var fl := new FloydAllPairsSP(dg);
    dense := fl.Dist(0, 1);
    ZeroMatrixNoWalk();
    ShortestWalkUnique(dg.edges, 0, 1, dense, Inf);
  }

  /**
   * A dense edge of weight 0 between distinct vertices is no edge at all: after
   * add_edge(0, 1, 0) the matrix has no edge 0 -> 1 and dist(0, 1) is +infinity.
   */
  method ZeroWeightEdgeScenario() returns (edge: bool, dense: Dist)
    ensures !edge && dense == Inf
  {
    var dg := new DenseGraph(2);
    assert dg.edges[0] == [0, 0] && dg.edges[1] == [0, 0];
    dg.AddEdge(0, 1, 0);
    assert dg.edges[0] == [0, 0];
    assert dg.edges == [[0, 0], [0, 0]];
    edge := HasEdge(dg.edges, 0, 1);
    var fl := new FloydAllPairsSP(dg);
    dense := fl.Dist(0, 1);
    ZeroMatrixNoWalk();
    ShortestWalkUnique(dg.edges, 0, 1, dense, Inf);
  }

  /** A self-loop weight written on the diagonal is kept: dist(0, 0) is that weight. */
  method SelfLoopScenario() returns (dense: Dist)
    ensures dense == Fin(5)
  {
    var dg := new DenseGraph(1);
    assert dg.edges[0] == [0];
    dg.AddEdge(0, 0, 5);
    assert dg.edges[0] == [5];
    assert dg.edges == [[5]];
    var fl := new FloydAllPairsSP(dg);
    dense := fl.Dist(0, 0);
    SelfLoopWalk();
    ShortestWalkUnique(dg.edges, 0, 0, dense, Fin(5));
  }
}
