/**
 * Extended reals (finite values and +infinity) as the solver's floats use
 * them, and the two-part score `(constraint_metric, diversity_metric)` with
 * Python's lexicographic tuple comparison.
 */
module ExtReals {

  /** A float that is either finite or `math.inf`. */
  datatype ExtReal = Fin(r: real) | Inf

  /** Python's `<` on floats restricted to finite values and +infinity. */
  predicate Less(a: ExtReal, b: ExtReal)
  {
    match a
    case Inf => false
    case Fin(x) => b.Inf? || x < b.r
  }

  /** Python's `min(a, b)`: `b` when `b < a`, otherwise `a`. */
  function Min(a: ExtReal, b: ExtReal): (r: ExtReal)
    ensures r == a || r == b
    ensures !Less(a, r) && !Less(b, r)
  {
    if Less(b, a) then b else a
  }

  /** `Less` is a strict total order. */
  lemma LessIsStrictTotalOrder(a: ExtReal, b: ExtReal, c: ExtReal)
    ensures !Less(a, a)
    ensures Less(a, b) && Less(b, c) ==> Less(a, c)
    ensures a == b || Less(a, b) || Less(b, a)
  {
  }

  /** The score of a selection: constraint violation first, then diversity penalty. */
  datatype Metric = Metric(cons: ExtReal, sep: ExtReal)

  /** Python's tuple `<` on two-element metric tuples. */
  predicate MetricLess(a: Metric, b: Metric)
  {
    Less(a.cons, b.cons) || (a.cons == b.cons && Less(a.sep, b.sep))
  }

  /** Lexicographic `<` on metrics is a strict total order. */
  lemma MetricLessIsStrictTotalOrder(a: Metric, b: Metric, c: Metric)
    ensures !MetricLess(a, a)
    ensures MetricLess(a, b) && MetricLess(b, c) ==> MetricLess(a, c)
    ensures a == b || MetricLess(a, b) || MetricLess(b, a)
  {
    LessIsStrictTotalOrder(a.cons, b.cons, c.cons);
    LessIsStrictTotalOrder(a.sep, b.sep, c.sep);
  }
}
