/**
 * The dense representation: a size×size weight matrix in which 0 means "no edge",
 * and the walks that Floyd–Warshall minimises over.
 */
module DenseGraphs {
  import opened Distances

  /** `m` is an n×n matrix with n = |m|. */
  predicate IsSquare(m: seq<seq<int>>) {
    forall i :: 0 <= i < |m| ==> |m[i]| == |m|
  }

  /**
   * The zero-means-no-edge convention: an off-diagonal cell holding 0 is no edge and every
   * other cell is an edge of that weight. A diagonal cell is always an edge, of the weight it
   * holds, 0 included. An edge of weight 0 between two distinct
   * vertices therefore cannot be represented.
   */
  predicate HasEdge(m: seq<seq<int>>, i: int, j: int)
    requires IsSquare(m) && 0 <= i < |m| && 0 <= j < |m|
  {
    i == j || m[i][j] != 0
  }

  /** Every vertex listed in `p` is a vertex of an n-vertex graph. */
  ghost predicate OnVertices(n: int, p: seq<int>) {
    forall x :: 0 <= x < |p| ==> 0 <= p[x] < n
  }

  /** `p` lists the vertices of a walk of at least one edge in `m`. */
  ghost predicate IsWalk(m: seq<seq<int>>, p: seq<int>)
    requires IsSquare(m)
  {
    |p| >= 2 && OnVertices(|m|, p) &&
    forall x :: 0 <= x < |p| - 1 ==> HasEdge(m, p[x], p[x + 1])
  }

  /** A walk from `i` to `j`. */
  ghost predicate IsWalkBetween(m: seq<seq<int>>, p: seq<int>, i: int, j: int)
    requires IsSquare(m)
  {
    IsWalk(m, p) && p[0] == i && p[|p| - 1] == j
  }

  /** The sum of the matrix weights along the consecutive vertices of `p`. */
  ghost function WalkWeight(m: seq<seq<int>>, p: seq<int>): int
    requires IsSquare(m) && OnVertices(|m|, p)
    decreases |p|
  {
    if |p| < 2 then 0 else m[p[0]][p[1]] + WalkWeight(m, p[1..])
  }

  /** Every vertex strictly inside the walk `p` is below `k`. */
  ghost predicate IntermediatesBelow(p: seq<int>, k: int) {
    forall x :: 0 < x < |p| - 1 ==> p[x] < k
  }

  /** Every closed walk has non-negative weight: no negative cycle. */
  ghost predicate NoNegativeCycle(m: seq<seq<int>>)
    requires IsSquare(m)
  {
    forall p :: IsWalk(m, p) && p[0] == p[|p| - 1] ==> WalkWeight(m, p) >= 0
  }

  /** `r` is the least weight of a walk from `i` to `j`, and `Inf` exactly when there is none. */
  ghost predicate IsShortestWalk(m: seq<seq<int>>, i: int, j: int, r: Dist)
    requires IsSquare(m)
  {
    match r
    case Inf => forall p :: !IsWalkBetween(m, p, i, j)
    case Fin(x) =>
      (exists p :: IsWalkBetween(m, p, i, j) && WalkWeight(m, p) == x) &&
      (forall p :: IsWalkBetween(m, p, i, j) ==> x <= WalkWeight(m, p))
  }

  /** The weight of a walk is the weight of its part up to position `a` plus the rest. */
  lemma {:induction false} WalkWeightSplit(m: seq<seq<int>>, p: seq<int>, a: nat)
    requires IsSquare(m) && OnVertices(|m|, p) && a < |p|
    ensures OnVertices(|m|, p[..a + 1]) && OnVertices(|m|, p[a..])
    ensures WalkWeight(m, p) == WalkWeight(m, p[..a + 1]) + WalkWeight(m, p[a..])
    decreases a
  {
    if a == 0 {
      assert p[0..] == p;
    } else {
      var q := p[1..];
      WalkWeightSplit(m, q, a - 1);
      assert q[..a] == p[..a + 1][1..];
      assert q[a - 1..] == p[a..];
    }
  }

  /** A stretch of a walk between two of its positions is again a walk. */
  lemma {:induction false} SubWalk(m: seq<seq<int>>, p: seq<int>, a: nat, b: nat)
    requires IsSquare(m) && IsWalk(m, p) && a < b < |p|
    ensures IsWalk(m, p[a..b + 1])
  {
    var q := p[a..b + 1];
    forall x | 0 <= x < |q| - 1
      ensures HasEdge(m, q[x], q[x + 1])
    {
      assert q[x] == p[a + x] && q[x + 1] == p[a + x + 1];
    }
  }

  /** Cutting a walk at an inner position gives two walks that keep its bound on intermediates. */
  lemma {:induction false} SplitWalk(m: seq<seq<int>>, p: seq<int>, x: nat, k: int)
    requires IsSquare(m) && IsWalk(m, p) && IntermediatesBelow(p, k) && 0 < x < |p| - 1
    ensures IsWalk(m, p[..x + 1]) && IsWalk(m, p[x..])
    ensures IntermediatesBelow(p[..x + 1], k) && IntermediatesBelow(p[x..], k)
    ensures p[..x + 1][0] == p[0] && p[..x + 1][x] == p[x]
    ensures p[x..][0] == p[x] && p[x..][|p| - x - 1] == p[|p| - 1]
  {
    SubWalk(m, p, 0, x);
    SubWalk(m, p, x, |p| - 1);
    assert p[0..x + 1] == p[..x + 1] && p[x..|p| - 1 + 1] == p[x..];
    var p1, p2 := p[..x + 1], p[x..];
    forall y | 0 < y < |p1| - 1 ensures p1[y] < k { assert p1[y] == p[y]; }
    forall y | 0 < y < |p2| - 1 ensures p2[y] < k { assert p2[y] == p[x + y]; }
  }

  /** Two walks that meet at a vertex join into one whose weight is the sum. */
  lemma {:induction false} WalkConcat(m: seq<seq<int>>, p1: seq<int>, p2: seq<int>)
    requires IsSquare(m) && IsWalk(m, p1) && IsWalk(m, p2) && p1[|p1| - 1] == p2[0]
    ensures IsWalk(m, p1 + p2[1..])
    ensures WalkWeight(m, p1 + p2[1..]) == WalkWeight(m, p1) + WalkWeight(m, p2)
  {
    var p := p1 + p2[1..];
    assert OnVertices(|m|, p) by {
      forall x | 0 <= x < |p|
        ensures 0 <= p[x] < |m|
      {
        if x >= |p1| {
          assert p[x] == p2[x - |p1| + 1];
        }
      }
    }
    forall x | 0 <= x < |p| - 1
      ensures HasEdge(m, p[x], p[x + 1])
    {
      if x < |p1| - 1 {
        assert p[x] == p1[x] && p[x + 1] == p1[x + 1];
      } else {
        var y := x - |p1| + 1;
        assert p[x] == p2[y] && p[x + 1] == p2[y + 1];
      }
    }
    ConcatWeight(m, p1, p2);
  }

  lemma {:induction false} ConcatWeight(m: seq<seq<int>>, p1: seq<int>, p2: seq<int>)
    requires IsSquare(m) && OnVertices(|m|, p1) && OnVertices(|m|, p2)
    requires |p1| >= 1 && |p2| >= 1 && p1[|p1| - 1] == p2[0] && OnVertices(|m|, p1 + p2[1..])
    ensures WalkWeight(m, p1 + p2[1..]) == WalkWeight(m, p1) + WalkWeight(m, p2)
  {
    var p := p1 + p2[1..];
    WalkWeightSplit(m, p, |p1| - 1);
    assert p[..|p1|] == p1;
    assert p[|p1| - 1..] == p2;
  }

  /**
   * A potential that no edge can undercut (pot[j] <= pot[i] + m[i][j] along every edge)
   * bounds the weight of every walk from below by the potential difference of its ends.
   */
  ghost predicate IsPotential(m: seq<seq<int>>, pot: seq<int>)
    requires IsSquare(m)
  {
    |pot| == |m| &&
    forall i, j :: 0 <= i < |m| && 0 <= j < |m| && HasEdge(m, i, j) ==> pot[j] <= pot[i] + m[i][j]
  }

  lemma {:induction false} PotentialBound(m: seq<seq<int>>, pot: seq<int>, p: seq<int>)
    requires IsSquare(m) && IsPotential(m, pot) && IsWalk(m, p)
    ensures pot[p[|p| - 1]] - pot[p[0]] <= WalkWeight(m, p)
    decreases |p|
  {
    assert HasEdge(m, p[0], p[1]);
    if |p| > 2 {
      SubWalk(m, p, 1, |p| - 1);
      assert p[1..|p|] == p[1..];
      PotentialBound(m, pot, p[1..]);
    }
  }

  /** A square matrix without negative cells: a graph without negative weights. */
  ghost predicate NonNegativeCells(m: seq<seq<int>>) {
    IsSquare(m) && forall i, j :: 0 <= i < |m| && 0 <= j < |m| ==> m[i][j] >= 0
  }

  /** A matrix without negative cells has no negative cycle. */
  lemma {:induction false} NonNegativeHasNoNegativeCycle(m: seq<seq<int>>)
    requires NonNegativeCells(m)
    ensures NoNegativeCycle(m)
  {
    var zero := seq(|m|, _ => 0);
    forall p | IsWalk(m, p) && p[0] == p[|p| - 1]
      ensures WalkWeight(m, p) >= 0
    {
      PotentialBound(m, zero, p);
    }
  }

  /**
   * Without negative cells, a walk out of a vertex whose diagonal cell is not 0 weighs more
   * than 0: its first step is that self-loop or an off-diagonal edge, and either is positive.
   */
  lemma {:induction false} LoopedStartPositive(m: seq<seq<int>>, p: seq<int>)
    requires NonNegativeCells(m) && IsWalk(m, p) && m[p[0]][p[0]] != 0
    ensures WalkWeight(m, p) > 0
  {
    assert HasEdge(m, p[0], p[1]);
    if |p| > 2 {
      SubWalk(m, p, 1, |p| - 1);
      assert p[1..|p|] == p[1..];
      PotentialBound(m, seq(|m|, _ => 0), p[1..]);
    }
  }

  /** A shortest-walk value is unique. */
  lemma {:induction false} ShortestWalkUnique(m: seq<seq<int>>, i: int, j: int, r1: Dist, r2: Dist)
    requires IsSquare(m) && IsShortestWalk(m, i, j, r1) && IsShortestWalk(m, i, j, r2)
    ensures r1 == r2
  {
    if r1.Fin? && r2.Fin? {
      var p1 :| IsWalkBetween(m, p1, i, j) && WalkWeight(m, p1) == r1.n;
      var p2 :| IsWalkBetween(m, p2, i, j) && WalkWeight(m, p2) == r2.n;
    }
  }

  /** The n×n matrix of zeros: n vertices and no edge. */
  function ZeroMatrix(n: nat): seq<seq<int>> {
    seq(n, _ => seq(n, _ => 0))
  }

  /**
   * A directed weighted graph over the vertices 0..size-1 stored as a size×size matrix of
   * weights, all 0 (no edge) until `AddEdge` writes a cell.
   */
  class DenseGraph {
    const size: int
    var edges: seq<seq<int>>

    /** The matrix is square; a negative size gives the empty matrix, as `range` does. */
    ghost predicate Valid()
      reads this
    {
      IsSquare(edges) && |edges| == (if size < 0 then 0 else size)
    }

    constructor (size: int)
      ensures Valid() && this.size == size
      ensures edges == ZeroMatrix(|edges|)
    {
      var n := if size < 0 then 0 else size;
      this.size := size;
      edges := ZeroMatrix(n);
    }

    /** Overwrites cell [s][t] with `w` (default 1): the last write wins. */
    method AddEdge(s: int, t: int, w: int := 1)
      requires Valid() && 0 <= s < |edges| && 0 <= t < |edges|
      modifies this
      ensures Valid() && edges == old(edges)[s := old(edges[s])[t := w]]
      ensures edges[s][t] == w
      ensures forall i, j :: 0 <= i < |edges| && 0 <= j < |edges| && (i, j) != (s, t) ==>
        edges[i][j] == old(edges)[i][j]
    {
      edges := edges[s := edges[s][t := w]];
    }
  }
}
