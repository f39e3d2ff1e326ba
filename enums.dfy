/**
 * The configuration enumerations of the max-diversity solver
 * (brtp/math/optim/discrete/max_div/_enums.py). Each Python `IntEnum`
 * becomes a datatype with a `Value()` giving its integer value and a
 * partial inverse, `...FromValue`, modelling the lookup `Enum(v)` that
 * raises for an unknown value.
 */
module Enums {
  import opened Wrappers

  /** Distance metrics: `L1_Manhattan = 1`, `L2_Euclidean = 2`. */
  datatype DistanceMetric = L1Manhattan | L2Euclidean {
    function Value(): int
    {
      match this
      case L1Manhattan => 1
      case L2Euclidean => 2
    }
  }

  function DistanceMetricFromValue(v: int): (r: Option<DistanceMetric>)
    ensures r.Some? <==> v in {1, 2}
    ensures r.Some? ==> r.value.Value() == v
  {
    if v == 1 then Some(L1Manhattan) else if v == 2 then Some(L2Euclidean) else None
  }

  /** Diversity metrics: `SumDist = 1`, `MinDist = 2`, `GeoMeanDist = 3`. */
  datatype DiversityMetric = SumDist | MinDist | GeoMeanDist {
    function Value(): int
    {
      match this
      case SumDist => 1
      case MinDist => 2
      case GeoMeanDist => 3
    }
  }

  function DiversityMetricFromValue(v: int): (r: Option<DiversityMetric>)
    ensures r.Some? <==> 1 <= v <= 3
    ensures r.Some? ==> r.value.Value() == v
  {
    if v == 1 then Some(SumDist)
    else if v == 2 then Some(MinDist)
    else if v == 3 then Some(GeoMeanDist)
    else None
  }

  /**
   * Constraint-violation metrics: `AbsoluteSum = 1`, `RelativeSum = 2`,
   * `AbsoluteSquaredSum = 11`, `RelativeSquaredSum = 12`.
   */
  datatype ConstraintViolationMetric = AbsoluteSum | RelativeSum | AbsoluteSquaredSum | RelativeSquaredSum {
    function Value(): int
    {
      match this
      case AbsoluteSum => 1
      case RelativeSum => 2
      case AbsoluteSquaredSum => 11
      case RelativeSquaredSum => 12
    }

    /** Relative to the group size, as opposed to absolute. */
    predicate IsRelative()
    {
      this == RelativeSum || this == RelativeSquaredSum
    }

    /** Squared, as opposed to linear. */
    predicate IsSquared()
    {
      this == AbsoluteSquaredSum || this == RelativeSquaredSum
    }
  }

  function ConstraintViolationMetricFromValue(v: int): (r: Option<ConstraintViolationMetric>)
    ensures r.Some? <==> v in {1, 2, 11, 12}
    ensures r.Some? ==> r.value.Value() == v
  {
    if v == 1 then Some(AbsoluteSum)
    else if v == 2 then Some(RelativeSum)
    else if v == 11 then Some(AbsoluteSquaredSum)
    else if v == 12 then Some(RelativeSquaredSum)
    else None
  }

  /** Looking up an enum member by its own value gives that member back. */
  lemma ValuesRoundTrip(d: DistanceMetric, g: DiversityMetric, c: ConstraintViolationMetric)
    ensures DistanceMetricFromValue(d.Value()) == Some(d)
    ensures DiversityMetricFromValue(g.Value()) == Some(g)
    ensures ConstraintViolationMetricFromValue(c.Value()) == Some(c)
  {
  }

  /** The two flags of each violation metric, as the enum's tests tabulate them. */
  lemma ViolationMetricFlags()
    ensures !AbsoluteSum.IsRelative() && !AbsoluteSum.IsSquared()
    ensures RelativeSum.IsRelative() && !RelativeSum.IsSquared()
    ensures !AbsoluteSquaredSum.IsRelative() && AbsoluteSquaredSum.IsSquared()
    ensures RelativeSquaredSum.IsRelative() && RelativeSquaredSum.IsSquared()
  {
  }

  /** The pair of flags identifies the violation metric uniquely. */
  lemma ViolationMetricFlagsInjective(a: ConstraintViolationMetric, b: ConstraintViolationMetric)
    ensures (a.IsRelative(), a.IsSquared()) == (b.IsRelative(), b.IsSquared()) <==> a == b
  {
  }
}
