/**
 * Extended integer distances.
 *
 * The source keeps distances as Python numbers and uses `float('inf')` for "no path".
 * Here a finite distance is an integer and +infinity is the explicit constructor `Inf`.
 */
module Distances {

  /** A shortest-path distance: a finite integer weight, or +infinity. */
  datatype Dist = Fin(n: int) | Inf {

    /** The order of the extended integers: every finite value lies below `Inf`. */
    predicate Le(other: Dist) {
      other.Inf? || (Fin? && n <= other.n)
    }

    /** Strictly below. */
    predicate Lt(other: Dist) {
      !other.Le(this)
    }
  }

  /** Python's `+` when an operand may be `inf`: infinity absorbs any finite summand. */
  function Add(a: Dist, b: Dist): (r: Dist)
    ensures r.Inf? <==> a.Inf? || b.Inf?
    ensures r.Fin? ==> r.n == a.n + b.n
    ensures b.Fin? && b.n >= 0 ==> a.Le(r)
  {
    if a.Inf? || b.Inf? then Inf else Fin(a.n + b.n)
  }

  /** Python's `min(a, b)`: the first argument unless the second is strictly smaller. */
  function Min(a: Dist, b: Dist): (r: Dist)
    ensures r.Le(a) && r.Le(b)
    ensures r == a || r == b
  {
    if b.Lt(a) then b else a
  }
}
