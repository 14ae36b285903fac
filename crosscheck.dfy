/**
 * Cross-validation of the two algorithms: a weight matrix describes the same graph as the edge
 * lists holding one `Edge(j, m[i][j])` per non-zero cell. With no negative cell, Floyd–Warshall's
 * dist(s, t) on the one equals Dijkstra's dist(t) from s on the other, for every pair but (s, s)
 * when the diagonal cell of s is not 0.
 */
module CrossValidation {
  import opened Distances
  import opened DenseGraphs
  import opened FloydWarshall
  import opened SparseGraphs
  import opened DijkstraSingleSource

  /** The edges of row `i` of `m` from column `j` on, in column order: one per non-zero cell. */
  function RowEdges(m: seq<seq<int>>, i: int, j: nat): seq<Edge>
    requires IsSquare(m) && 0 <= i < |m| && j <= |m|
    decreases |m| - j
  {
    if j == |m| then []
    else if m[i][j] != 0 then [Edge(j, m[i][j])] + RowEdges(m, i, j + 1)
    else RowEdges(m, i, j + 1)
  }

  /** The sparse form of a matrix: row `i` becomes the edge list of vertex `i`. */
  function AsSparse(m: seq<seq<int>>): seq<seq<Edge>>
    requires IsSquare(m)
  {
    seq(|m|, i requires 0 <= i < |m| => RowEdges(m, i, 0))
  }

  lemma {:induction false} RowEdgesMembers(m: seq<seq<int>>, i: int, j: nat, e: Edge)
    requires IsSquare(m) && 0 <= i < |m| && j <= |m|
    ensures e in RowEdges(m, i, j) <==>
      j <= e.target < |m| && m[i][e.target] != 0 && e.weight == m[i][e.target]
    decreases |m| - j
  {
    if j < |m| {
      RowEdgesMembers(m, i, j + 1, e);
    }
  }

  /** An edge of vertex `i` in the sparse form is exactly a non-zero cell of row `i`. */
  lemma {:induction false} AsSparseEdge(m: seq<seq<int>>, i: int, e: Edge)
    requires IsSquare(m) && 0 <= i < |m|
    ensures |AsSparse(m)| == |m|
    ensures e in AsSparse(m)[i] <==>
      0 <= e.target < |m| && m[i][e.target] != 0 && e.weight == m[i][e.target]
  {
    RowEdgesMembers(m, i, 0, e);
  }

  /** The sparse form of a matrix without negative cells satisfies what Dijkstra's algorithm needs from every source. */
  lemma {:induction false} AsSparseValid(m: seq<seq<int>>)
    requires NonNegativeCells(m)
    ensures AllEdgesValid(AsSparse(m))
  {
    forall u, e: Edge | 0 <= u < |AsSparse(m)| && e in AsSparse(m)[u]
      ensures 0 <= e.target < |AsSparse(m)| && e.weight >= 0
    {
      AsSparseEdge(m, u, e);
    }
  }

  /**
   * Every non-empty path of the sparse form is a walk of the matrix of the same weight; a
   * self-loop edge becomes a diagonal step.
   */
  lemma {:induction false} PathAsWalk(m: seq<seq<int>>, s: int, es: seq<Edge>) returns (p: seq<int>)
    requires IsSquare(m) && 0 <= s < |m| && IsPath(AsSparse(m), s, es) && es != []
    ensures IsWalkBetween(m, p, s, End(s, es)) && WalkWeight(m, p) == PathWeight(es)
    decreases |es|
  {
    var pre, e := es[..|es| - 1], es[|es| - 1];
    var u := End(s, pre);
    AsSparseEdge(m, u, e);
    var step := [u, e.target];
    assert step[1..] == [e.target];
    assert HasEdge(m, u, e.target);
    if pre == [] {
      p := step;
    } else {
      var p' := PathAsWalk(m, s, pre);
      WalkConcat(m, p', step);
      p := p' + step[1..];
    }
  }

  /**
   * Every walk of the matrix is a path of the sparse form of the same weight: a diagonal step
   * of weight 0 is dropped, every other step is an edge.
   */
  lemma {:induction false} WalkAsPath(m: seq<seq<int>>, p: seq<int>) returns (es: seq<Edge>)
    requires IsSquare(m) && IsWalk(m, p)
    ensures IsPath(AsSparse(m), p[0], es) && End(p[0], es) == p[|p| - 1]
    ensures PathWeight(es) == WalkWeight(m, p)
    decreases |p|
  {
    var n := |p|;
    // a path to p[n-2] weighing what the walk weighs up to its last step
    var pre: seq<Edge>;
    if n == 2 {
      pre := [];
      assert IsPath(AsSparse(m), p[0], pre);
    } else {
      SubWalk(m, p, 0, n - 2);
      assert p[0..n - 1] == p[..n - 1];
      pre := WalkAsPath(m, p[..n - 1]);
    }
    WalkWeightSplit(m, p, n - 2);
    assert p[n - 2..] == [p[n - 2], p[n - 1]] && [p[n - 2], p[n - 1]][1..] == [p[n - 1]];
    es := LastStep(m, p, pre);
  }

  /** A path to the second-to-last vertex of a walk extends by the walk's last step, unless that step is a zero loop. */
  lemma {:induction false} LastStep(m: seq<seq<int>>, p: seq<int>, pre: seq<Edge>) returns (es: seq<Edge>)
    requires IsSquare(m) && IsWalk(m, p)
    requires IsPath(AsSparse(m), p[0], pre) && End(p[0], pre) == p[|p| - 2]
    ensures IsPath(AsSparse(m), p[0], es) && End(p[0], es) == p[|p| - 1]
    ensures PathWeight(es) == PathWeight(pre) + m[p[|p| - 2]][p[|p| - 1]]
  {
    var a, b := p[|p| - 2], p[|p| - 1];
    assert HasEdge(m, a, b);
    if m[a][b] == 0 {
      es := pre;
    } else {
      var e := Edge(b, m[a][b]);
      AsSparseEdge(m, a, e);
      ExtendPath(AsSparse(m), p[0], pre, e);
      es := pre + [e];
    }
  }

  /** The walk that stays on `s` through a diagonal cell holding 0 weighs 0. */
  lemma {:induction false} ZeroLoop(m: seq<seq<int>>, s: int)
    requires IsSquare(m) && 0 <= s < |m| && m[s][s] == 0
    ensures IsWalkBetween(m, [s, s], s, s) && WalkWeight(m, [s, s]) == 0
  {
    assert [s, s][1..] == [s];
    assert HasEdge(m, s, s);
  }

  /**
   * Except from a vertex to itself when its diagonal cell is not 0, a shortest distance of the
   * sparse form is the shortest-walk value of the matrix, and back.
   */
  lemma {:induction false} SameShortest(m: seq<seq<int>>, s: int, t: int, r: Dist)
    requires IsSquare(m) && 0 <= s < |m| && 0 <= t < |m| && (s != t || m[s][s] == 0)
    ensures IsShortestDist(AsSparse(m), s, t, r) <==> IsShortestWalk(m, s, t, r)
  {
    if IsShortestDist(AsSparse(m), s, t, r) {
      SparseToDense(m, s, t, r);
    }
    if IsShortestWalk(m, s, t, r) {
      DenseToSparse(m, s, t, r);
    }
  }

  lemma {:induction false} SparseToDense(m: seq<seq<int>>, s: int, t: int, r: Dist)
    requires IsSquare(m) && 0 <= s < |m| && 0 <= t < |m| && (s != t || m[s][s] == 0)
    requires IsShortestDist(AsSparse(m), s, t, r)
    ensures IsShortestWalk(m, s, t, r)
  {
    var g := AsSparse(m);
    forall q | IsWalkBetween(m, q, s, t)
      ensures r.Fin? && r.n <= WalkWeight(m, q)
    {
      var es := WalkAsPath(m, q);
    }
    if r.Fin? {
      var es :| IsPath(g, s, es) && End(s, es) == t && PathWeight(es) == r.n;
      if es == [] {
        ZeroLoop(m, s);
      } else {
        var p := PathAsWalk(m, s, es);
      }
    }
  }

  lemma {:induction false} DenseToSparse(m: seq<seq<int>>, s: int, t: int, r: Dist)
    requires IsSquare(m) && 0 <= s < |m| && 0 <= t < |m| && (s != t || m[s][s] == 0)
    requires IsShortestWalk(m, s, t, r)
    ensures IsShortestDist(AsSparse(m), s, t, r)
  {
    var g := AsSparse(m);
    forall es | IsPath(g, s, es) && End(s, es) == t
      ensures r.Fin? && r.n <= PathWeight(es)
    {
      if es == [] {
        ZeroLoop(m, s);
      } else {
        var p := PathAsWalk(m, s, es);
      }
    }
    if r.Fin? {
      var p :| IsWalkBetween(m, p, s, t) && WalkWeight(m, p) == r.n;
      var es := WalkAsPath(m, p);
    }
  }

  /**
   * The one pair on which the two algorithms differ: from a vertex to itself when its diagonal
   * cell is not 0. The sparse form still reaches `s` by the empty path, at distance 0, while
   * every walk of the matrix from `s` back to `s` weighs more than 0.
   */
  lemma {:induction false} SelfLoopDisagrees(m: seq<seq<int>>, s: int)
    requires NonNegativeCells(m) && 0 <= s < |m| && m[s][s] != 0
    ensures IsShortestDist(AsSparse(m), s, s, Fin(0))
    ensures !IsShortestWalk(m, s, s, Fin(0))
  {
    var g := AsSparse(m);
    AsSparseValid(m);
    assert IsPath(g, s, []);
    forall es | IsPath(g, s, es) && End(s, es) == s
      ensures 0 <= PathWeight(es)
    {
      PathWeightNonNegative(g, s, es);
    }
    forall p | IsWalkBetween(m, p, s, s)
      ensures WalkWeight(m, p) > 0
    {
      LoopedStartPositive(m, p);
    }
  }

  /**
   * On a matrix without negative cells and its sparse form, Floyd–Warshall's dist(s, t) and
   * Dijkstra's dist(t) from the same source s are equal, except when t is s and the diagonal
   * cell of s is not 0 (see `SelfLoopDisagrees`).
   */
  lemma {:induction false} AlgorithmsAgree(fl: FloydAllPairsSP, sp: DijkstraSP, t: int)
    requires fl.Valid() && sp.Valid() && NonNegativeCells(fl.matrix) && sp.edges == AsSparse(fl.matrix)
    requires 0 <= t < |sp.dists| && (sp.s != t || fl.matrix[sp.s][sp.s] == 0)
    ensures 0 <= sp.s < |fl.dists| && 0 <= t < |fl.dists|
    ensures fl.Dist(sp.s, t) == sp.Dist(t)
  {
    var m := fl.matrix;
    NonNegativeHasNoNegativeCycle(m);
    var r1, r2 := fl.Dist(sp.s, t), sp.Dist(t);
    SameShortest(m, sp.s, t, r2);
    ShortestWalkUnique(m, sp.s, t, r1, r2);
  }
}
