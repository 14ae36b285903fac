/**
 * Floyd–Warshall all-pairs shortest paths over a `DenseGraph`, computed once when the
 * `FloydAllPairsSP` object is built and then answered by table lookup.
 */
module FloydWarshall {
  import opened Distances
  import opened DenseGraphs

  /**
   * Cell (i, j) after the initialisation pass: an off-diagonal 0 becomes +infinity, every
   * other cell keeps its matrix value, the diagonal included.
   */
  function Init(m: seq<seq<int>>, i: int, j: int): (r: Dist)
    requires IsSquare(m) && 0 <= i < |m| && 0 <= j < |m|
    ensures r == Inf <==> i != j && m[i][j] == 0
    ensures r.Fin? ==> r.n == m[i][j]
  {
    if HasEdge(m, i, j) then Fin(m[i][j]) else Inf
  }

  /**
   * Cell (i, j) of the table once the intermediates 0..k-1 have been processed, as the
   * k-outermost recurrence defines it.
   */
  ghost function FW(m: seq<seq<int>>, k: nat, i: int, j: int): Dist
    requires IsSquare(m) && k <= |m| && 0 <= i < |m| && 0 <= j < |m|
    decreases k
  {
    if k == 0 then Init(m, i, j)
    else Min(FW(m, k - 1, i, j), Add(FW(m, k - 1, i, k - 1), FW(m, k - 1, k - 1, j)))
  }

  /** Every finite cell of the level-k table is the weight of a walk whose intermediates are below k. */
  lemma {:induction false} FWSound(m: seq<seq<int>>, k: nat, i: int, j: int) returns (p: seq<int>)
    requires IsSquare(m) && k <= |m| && 0 <= i < |m| && 0 <= j < |m|
    requires FW(m, k, i, j).Fin?
    ensures IsWalkBetween(m, p, i, j) && IntermediatesBelow(p, k)
    ensures WalkWeight(m, p) == FW(m, k, i, j).n
    decreases k
  {
    if k == 0 {
      p := [i, j];
      assert p[1..] == [j];
    } else if FW(m, k, i, j) == FW(m, k - 1, i, j) {
      p := FWSound(m, k - 1, i, j);
    } else {
      var p1 := FWSound(m, k - 1, i, k - 1);
      var p2 := FWSound(m, k - 1, k - 1, j);
      WalkConcat(m, p1, p2);
      p := p1 + p2[1..];
      forall x | 0 < x < |p| - 1
        ensures p[x] < k
      {
        if x >= |p1| {
          assert p[x] == p2[x - |p1| + 1];
        }
      }
    }
  }

  /**
   * Without negative cycles the pivot row and column do not change in round k: relaxing
   * d[i][k] through k itself adds the weight of a closed walk, which is not negative.
   */
  lemma {:induction false} FWPivotStable(m: seq<seq<int>>, k: nat, i: int)
    requires IsSquare(m) && NoNegativeCycle(m) && k < |m| && 0 <= i < |m|
    ensures FW(m, k + 1, i, k) == FW(m, k, i, k)
    ensures FW(m, k + 1, k, i) == FW(m, k, k, i)
  {
    if FW(m, k, k, k).Fin? {
      var c := FWSound(m, k, k, k);
      assert WalkWeight(m, c) >= 0;
    }
  }

  /**
   * Without negative cycles, the level-k cell (i, j) is no heavier than any walk from i to j
   * whose intermediates are below k.
   */
  lemma {:induction false} FWOptimal(m: seq<seq<int>>, k: nat, p: seq<int>)
    requires IsSquare(m) && NoNegativeCycle(m) && k <= |m|
    requires IsWalk(m, p) && IntermediatesBelow(p, k)
    ensures FW(m, k, p[0], p[|p| - 1]).Le(Fin(WalkWeight(m, p)))
    decreases k, |p|, 2
  {
    if k == 0 {
      FWOneEdge(m, p);
    } else if exists x :: 0 < x < |p| - 1 && p[x] == k - 1 {
      var x :| 0 < x < |p| - 1 && p[x] == k - 1;
      FWOptimalThroughPivot(m, k, p, x);
    } else {
      FWOptimalAvoidingPivot(m, k, p);
    }
  }

  /** The case of FWOptimal where the walk passes through the pivot k-1: cut it there. */
  lemma {:induction false} FWOptimalThroughPivot(m: seq<seq<int>>, k: nat, p: seq<int>, x: nat)
    requires IsSquare(m) && NoNegativeCycle(m) && 0 < k <= |m|
    requires IsWalk(m, p) && IntermediatesBelow(p, k) && 0 < x < |p| - 1 && p[x] == k - 1
    ensures FW(m, k, p[0], p[|p| - 1]).Le(Fin(WalkWeight(m, p)))
    decreases k, |p|, 1
  {
    var w1, w2 := PivotHalves(m, k, p, x);
    FWPivotStable(m, k - 1, p[0]);
    FWPivotStable(m, k - 1, p[|p| - 1]);
    FWThroughPivot(m, k, p[0], p[|p| - 1], w1, w2);
  }

  /** Cut at the pivot, the two halves of the walk bound the level-k cells to and from the pivot. */
  lemma {:induction false} PivotHalves(m: seq<seq<int>>, k: nat, p: seq<int>, x: nat) returns (w1: int, w2: int)
    requires IsSquare(m) && NoNegativeCycle(m) && 0 < k <= |m|
    requires IsWalk(m, p) && IntermediatesBelow(p, k) && 0 < x < |p| - 1 && p[x] == k - 1
    ensures FW(m, k, p[0], k - 1).Le(Fin(w1)) && FW(m, k, k - 1, p[|p| - 1]).Le(Fin(w2))
    ensures w1 + w2 == WalkWeight(m, p)
    decreases k, |p|, 0
  {
    var p1, p2 := p[..x + 1], p[x..];
    WalkWeightSplit(m, p, x);
    SplitWalk(m, p, x, k);
    w1 := HalfBound(m, k, p1, p[0], k - 1);
    w2 := HalfBound(m, k, p2, k - 1, p[|p| - 1]);
  }

  /** FWOptimal for a walk whose ends are named: the level-k cell (i, j) is no heavier than it. */
  lemma {:induction false} HalfBound(m: seq<seq<int>>, k: nat, q: seq<int>, i: int, j: int) returns (w: int)
    requires IsSquare(m) && NoNegativeCycle(m) && k <= |m|
    requires IsWalk(m, q) && IntermediatesBelow(q, k) && q[0] == i && q[|q| - 1] == j
    ensures w == WalkWeight(m, q) && FW(m, k, i, j).Le(Fin(w))
    decreases k, |q|, 3
  {
    FWOptimal(m, k, q);
    w := WalkWeight(m, q);
  }

  /** The case of FWOptimal where the walk avoids the pivot k-1: level k-1 already bounds it. */
  lemma {:induction false} FWOptimalAvoidingPivot(m: seq<seq<int>>, k: nat, p: seq<int>)
    requires IsSquare(m) && NoNegativeCycle(m) && 0 < k <= |m|
    requires IsWalk(m, p) && IntermediatesBelow(p, k)
    requires forall x :: 0 < x < |p| - 1 ==> p[x] != k - 1
    ensures FW(m, k, p[0], p[|p| - 1]).Le(Fin(WalkWeight(m, p)))
    decreases k, |p|, 0
  {
    assert IntermediatesBelow(p, k - 1);
    FWOptimal(m, k - 1, p);
  }

  /** With no intermediates allowed, a walk is a single edge and the level-0 cell is its weight. */
  lemma {:induction false} FWOneEdge(m: seq<seq<int>>, p: seq<int>)
    requires IsSquare(m) && IsWalk(m, p) && IntermediatesBelow(p, 0)
    ensures FW(m, 0, p[0], p[|p| - 1]) == Fin(WalkWeight(m, p))
  {
    assert 0 <= p[1];
    assert |p| == 2;
    assert HasEdge(m, p[0], p[1]);
    assert p[1..][1..] == [];
  }

  /**
   * Bounds w1 on the level-k cell (i, k-1) and w2 on (k-1, j), when those cells equal their
   * level k-1 values (the pivot row and column are stable), bound the level-k cell (i, j) by
   * w1 + w2: the recurrence relaxes (i, j) through the pivot.
   */
  lemma {:induction false} FWThroughPivot(m: seq<seq<int>>, k: nat, i: int, j: int, w1: int, w2: int)
    requires IsSquare(m) && 0 < k <= |m| && 0 <= i < |m| && 0 <= j < |m|
    requires FW(m, k, i, k - 1) == FW(m, k - 1, i, k - 1)
    requires FW(m, k, k - 1, j) == FW(m, k - 1, k - 1, j)
    requires FW(m, k, i, k - 1).Le(Fin(w1)) && FW(m, k, k - 1, j).Le(Fin(w2))
    ensures FW(m, k, i, j).Le(Fin(w1 + w2))
  {
  }

  /**
   * Without negative cycles the final table holds shortest-walk weights: the least weight of a
   * walk from i to j, and +infinity exactly when no walk exists.
   */
  lemma {:induction false} FloydExact(m: seq<seq<int>>, i: int, j: int)
    requires IsSquare(m) && NoNegativeCycle(m) && 0 <= i < |m| && 0 <= j < |m|
    ensures IsShortestWalk(m, i, j, FW(m, |m|, i, j))
  {
    var r := FW(m, |m|, i, j);
    forall p | IsWalkBetween(m, p, i, j)
      ensures r.Le(Fin(WalkWeight(m, p)))
    {
      FWOptimal(m, |m|, p);
    }
    if r.Fin? {
      var p := FWSound(m, |m|, i, j);
    }
  }

  /** A vertex whose diagonal cell holds 0 is at distance 0 from itself. */
  lemma {:induction false} FloydSelfDistance(m: seq<seq<int>>, s: int)
    requires IsSquare(m) && NoNegativeCycle(m) && 0 <= s < |m| && m[s][s] == 0
    ensures FW(m, |m|, s, s) == Fin(0)
  {
    var loop := [s, s];
    assert loop[1..] == [s];
    assert WalkWeight(m, loop) == 0;
    FWOptimal(m, |m|, loop);
    var c := FWSound(m, |m|, s, s);
    assert IsWalk(m, c) && c[0] == c[|c| - 1];
  }

  /** dist(s, s) is 0 for a vertex whose diagonal cell holds 0, when no cycle is negative. */
  lemma {:induction false} DistSelf(fl: FloydAllPairsSP, s: int)
    requires fl.Valid() && NoNegativeCycle(fl.matrix) && 0 <= s < |fl.dists| && fl.matrix[s][s] == 0
    ensures fl.Dist(s, s) == Fin(0)
  {
    FloydSelfDistance(fl.matrix, s);
  }

  /**
   * Without negative cells, dist(s, s) is 0 exactly when the diagonal cell of s holds 0,
   * and a non-zero diagonal cell makes it a positive finite distance.
   */
  lemma {:induction false} DistSelfExactly(fl: FloydAllPairsSP, s: int)
    requires fl.Valid() && NonNegativeCells(fl.matrix) && 0 <= s < |fl.dists|
    ensures fl.Dist(s, s) == Fin(0) <==> fl.matrix[s][s] == 0
    ensures fl.matrix[s][s] != 0 ==> fl.Dist(s, s).Fin? && fl.Dist(s, s).n > 0
  {
    var m := fl.matrix;
    NonNegativeHasNoNegativeCycle(m);
    if m[s][s] == 0 {
      DistSelf(fl, s);
    } else {
      forall p | IsWalkBetween(m, p, s, s)
        ensures WalkWeight(m, p) > 0
      {
        LoopedStartPositive(m, p);
      }
      var loop := [s, s];
      assert loop[1..] == [s];
      assert IsWalkBetween(m, loop, s, s);
    }
  }

  /** The all-pairs distance table of one dense graph. */
  class FloydAllPairsSP {
    const graph: DenseGraph
    /** The matrix of `graph` at construction time. */
    ghost const matrix: seq<seq<int>>
    const dists: seq<seq<Dist>>

    ghost predicate Valid() {
      IsSquare(matrix) && |dists| == |matrix| &&
      (forall i :: 0 <= i < |dists| ==> |dists[i]| == |dists|) &&
      (forall i, j :: 0 <= i < |dists| && 0 <= j < |dists| ==> dists[i][j].Le(Init(matrix, i, j))) &&
      (NoNegativeCycle(matrix) ==>
        forall i, j :: 0 <= i < |dists| && 0 <= j < |dists| ==>
          dists[i][j] == FW(matrix, |matrix|, i, j) && IsShortestWalk(matrix, i, j, dists[i][j]))
    }

    constructor (graph: DenseGraph)
      requires graph.Valid()
      ensures Valid() && this.graph == graph && matrix == graph.edges
    {
      var d := Floyd(graph);
      this.graph := graph;
      matrix := graph.edges;
      dists := d;
    }

    /**
     * Works on a copy of the matrix: off-diagonal zeros become +infinity, then the
     * k-outermost loop relaxes every cell in place through each pivot k.
     */
    static method Floyd(graph: DenseGraph) returns (dists: seq<seq<Dist>>)
      requires graph.Valid()
      ensures |dists| == |graph.edges|
      ensures forall i :: 0 <= i < |dists| ==> |dists[i]| == |dists|
      ensures forall i, j :: 0 <= i < |dists| && 0 <= j < |dists| ==>
        dists[i][j].Le(Init(graph.edges, i, j))
      ensures NoNegativeCycle(graph.edges) ==>
        forall i, j :: 0 <= i < |dists| && 0 <= j < |dists| ==>
          dists[i][j] == FW(graph.edges, |dists|, i, j) && IsShortestWalk(graph.edges, i, j, dists[i][j])
    {
      var m := graph.edges;
      // `range(graph.size)` is empty for a negative size, so |m| bounds every loop.
      var size := |m|;
      var d := new Dist[size, size]((i, j) requires 0 <= i < size && 0 <= j < size => Fin(m[i][j]));
      BlankMissingEdges(d, m);
      for k := 0 to size
        invariant forall a, b :: 0 <= a < size && 0 <= b < size ==> d[a, b].Le(Init(m, a, b))
        invariant NoNegativeCycle(m) ==>
          forall a, b :: 0 <= a < size && 0 <= b < size ==> d[a, b] == FW(m, k, a, b)
      {
        RelaxThrough(d, m, k);
      }
      dists := seq(size, i requires 0 <= i < size reads d => seq(size, j requires 0 <= j < size reads d => d[i, j]));
      if NoNegativeCycle(m) {
        forall i, j | 0 <= i < size && 0 <= j < size
          ensures IsShortestWalk(m, i, j, dists[i][j])
        {
          FloydExact(m, i, j);
        }
      }
    }

    /** The initialisation pass over the copy: every off-diagonal 0 becomes +infinity. */
    static method BlankMissingEdges(d: array2<Dist>, m: seq<seq<int>>)
      requires IsSquare(m) && d.Length0 == |m| && d.Length1 == |m|
      requires forall a, b :: 0 <= a < |m| && 0 <= b < |m| ==> d[a, b] == Fin(m[a][b])
      modifies d
      ensures forall a, b :: 0 <= a < |m| && 0 <= b < |m| ==> d[a, b] == Init(m, a, b)
    {
      var size := |m|;
      for i := 0 to size
        invariant forall a, b :: 0 <= a < size && 0 <= b < size ==>
          d[a, b] == if a < i then Init(m, a, b) else Fin(m[a][b])
      {
        for j := 0 to size
          invariant forall a, b :: 0 <= a < size && 0 <= b < size ==>
            d[a, b] == if a < i || (a == i && b < j) then Init(m, a, b) else Fin(m[a][b])
        {
          if i == j {
            continue;
          }
          if d[i, j] == Fin(0) {
            d[i, j] := Inf;
          }
        }
      }
    }

    /**
     * Round k of the main loop: d[i][j] := min(d[i][j], d[i][k] + d[k][j]) for every cell, in
     * place. No cell increases; without negative cycles the level-k table becomes level k+1.
     */
    static method RelaxThrough(d: array2<Dist>, m: seq<seq<int>>, k: int)
      requires IsSquare(m) && d.Length0 == |m| && d.Length1 == |m| && 0 <= k < |m|
      requires NoNegativeCycle(m) ==>
        forall a, b :: 0 <= a < |m| && 0 <= b < |m| ==> d[a, b] == FW(m, k, a, b)
      modifies d
      ensures forall a, b :: 0 <= a < |m| && 0 <= b < |m| ==> d[a, b].Le(old(d[a, b]))
      ensures NoNegativeCycle(m) ==>
        forall a, b :: 0 <= a < |m| && 0 <= b < |m| ==> d[a, b] == FW(m, k + 1, a, b)
    {
      var size := |m|;
      if NoNegativeCycle(m) {
        forall a | 0 <= a < size
          ensures FW(m, k + 1, a, k) == FW(m, k, a, k) && FW(m, k + 1, k, a) == FW(m, k, k, a)
        {
          FWPivotStable(m, k, a);
        }
      }
      for i := 0 to size
        invariant forall a, b :: 0 <= a < size && 0 <= b < size ==> d[a, b].Le(old(d[a, b]))
        invariant NoNegativeCycle(m) ==>
          forall a, b :: 0 <= a < size && 0 <= b < size ==>
            d[a, b] == if a < i then FW(m, k + 1, a, b) else FW(m, k, a, b)
      {
        RelaxRow(d, m, k, i);
      }
    }

    /** Row `i` of round `k`: the `j` loop of `_floyd`, which reads row `k` and cell `[i][k]`. */
    static method RelaxRow(d: array2<Dist>, m: seq<seq<int>>, k: int, i: int)
      requires IsSquare(m) && d.Length0 == |m| && d.Length1 == |m| && 0 <= k < |m| && 0 <= i < |m|
      requires NoNegativeCycle(m) ==>
        (forall b :: 0 <= b < |m| ==> d[i, b] == FW(m, k, i, b) && d[k, b] == FW(m, k, k, b)) &&
        FW(m, k + 1, i, k) == FW(m, k, i, k)
      modifies d
      ensures forall a, b :: 0 <= a < |m| && 0 <= b < |m| && a != i ==> d[a, b] == old(d[a, b])
      ensures forall b :: 0 <= b < |m| ==> d[i, b].Le(old(d[i, b]))
      ensures NoNegativeCycle(m) ==> forall b :: 0 <= b < |m| ==> d[i, b] == FW(m, k + 1, i, b)
    {
      for j := 0 to |m|
        invariant forall a, b :: 0 <= a < |m| && 0 <= b < |m| && a != i ==> d[a, b] == old(d[a, b])
        invariant forall b :: 0 <= b < |m| ==> d[i, b].Le(old(d[i, b]))
        invariant NoNegativeCycle(m) ==>
          forall b :: 0 <= b < |m| ==> d[i, b] == if b < j then FW(m, k + 1, i, b) else FW(m, k, i, b)
      {
        d[i, j] := Min(d[i, j], Add(d[i, k], d[k, j]));
      }
    }

    /** The cached distance from `s` to `t`; nothing is recomputed. */
    function Dist(s: int, t: int): (r: Dist)
      requires Valid() && 0 <= s < |dists| && 0 <= t < |dists|
      ensures r.Le(Init(matrix, s, t))
      ensures NoNegativeCycle(matrix) ==> IsShortestWalk(matrix, s, t, r)
    {
      dists[s][t]
    }
  }
}
