/**
 * Fairness constraints (brtp/math/optim/discrete/max_div/_constraints.py):
 * a group of candidate indices with a lower and an upper bound on how many of
 * them a selection may contain. Building one normalises the bounds and then
 * validates them; a failed validation raises instead of producing a value.
 */
module Constraints {
  import opened Wrappers
  import opened Sorting

  /** Default bounds of the dataclass fields. */
  const DefaultLb: int := 0
  const DefaultUb: int := 1_000_000_000_000

  /** The `ValueError`s raised while building a constraint, in the order they are checked. */
  datatype ConstraintError =
    | UbNegative        // "'ub' must be non-negative."
    | LbAboveGroupSize  // "'lb' must be <= len(indices)."
    | LbAboveUb         // "'lb' cannot be greater than 'ub'."
    | EmptyIndices      // `min()` of an empty set
    | NegativeIndex     // "'indices' must be non-negative."

  datatype FairnessConstraint = FairnessConstraint(indices: set<int>, lb: int, ub: int) {

    /** What every successfully built constraint satisfies. */
    predicate Valid()
    {
      && |indices| >= 1
      && 0 <= lb <= ub <= |indices|
      && forall i :: i in indices ==> i >= 0
    }

    /** `group_size`: the number of indices in the group. */
    function GroupSize(): nat
    {
      |indices|
    }

    /** `sorted_indices`: the group's indices in strictly ascending order. */
    function SortedIndices(): (r: seq<int>)
      ensures StrictlyIncreasing(r)
      ensures forall x :: x in r <==> x in indices
      ensures |r| == GroupSize()
    {
      SortedSeqProperties(indices);
      SortedSeq(indices)
    }
  }

  function Max(a: int, b: int): int { if a < b then b else a }
  function Min(a: int, b: int): int { if b < a then b else a }

  /**
   * `FairnessConstraint(indices, lb, ub)` followed by `__post_init__`:
   * `lb := max(lb, 0)`, `ub := min(ub, len(indices))`, then the checks in
   * source order. An empty group passes the bound checks only to fail in
   * `min(indices)`.
   */
  function New(indices: set<int>, lb: int := DefaultLb, ub: int := DefaultUb): (r: Result<FairnessConstraint, ConstraintError>)
    ensures r.Success? <==>
              && ub >= 0
              && Max(lb, 0) <= Min(ub, |indices|)
              && indices != {}
              && forall i :: i in indices ==> i >= 0
    ensures r.Success? ==> r.value.Valid()
    ensures r.Success? ==> r.value.indices == indices && r.value.lb == Max(lb, 0) && r.value.ub == Min(ub, |indices|)
    // Which check fails, in source order; each applies only when the earlier ones passed.
    ensures r == Failure(UbNegative) <==> ub < 0
    ensures r == Failure(LbAboveGroupSize) <==> ub >= 0 && Max(lb, 0) > |indices|
    ensures r == Failure(LbAboveUb) <==> ub >= 0 && Max(lb, 0) <= |indices| && Max(lb, 0) > Min(ub, |indices|)
    ensures r == Failure(EmptyIndices) <==> ub >= 0 && Max(lb, 0) <= Min(ub, |indices|) && indices == {}
    ensures r == Failure(NegativeIndex) <==>
              && ub >= 0 && Max(lb, 0) <= Min(ub, |indices|) && indices != {}
              && exists i :: i in indices && i < 0
  {
    var lb' := Max(lb, 0);
    var ub' := Min(ub, |indices|);
    if ub' < 0 then Failure(UbNegative)
    else if lb' > |indices| then Failure(LbAboveGroupSize)
    else if lb' > ub' then Failure(LbAboveUb)
    else if indices == {} then Failure(EmptyIndices)
    else if Minimum(indices) < 0 then Failure(NegativeIndex)
    else Success(FairnessConstraint(indices, lb', ub'))
  }

  /** The normalised upper bound is negative exactly when the given one is. */
  lemma UbNegativeIffInputNegative(indices: set<int>, lb: int, ub: int)
    ensures New(indices, lb, ub) == Failure(UbNegative) <==> ub < 0
  {
  }

  /** Building from an already valid constraint gives it back unchanged. */
  lemma NewIsIdempotent(c: FairnessConstraint)
    requires c.Valid()
    ensures New(c.indices, c.lb, c.ub) == Success(c)
  {
  }

  /** With the default bounds a group of non-negative indices is bounded by `(0, len(indices))`. */
  lemma DefaultBounds(indices: set<int>)
    requires indices != {} && |indices| <= DefaultUb
    requires forall i :: i in indices ==> i >= 0
    ensures New(indices) == Success(FairnessConstraint(indices, 0, |indices|))
  {
  }

  /** The normalisation and validation cases of the constraint tests. */
  lemma ConstructionExamples()
    ensures New({0, 1, 2, 3, 4}, 0, 5) == Success(FairnessConstraint({0, 1, 2, 3, 4}, 0, 5))
    ensures New({0, 1, 2, 3, 4}, -1, 6) == Success(FairnessConstraint({0, 1, 2, 3, 4}, 0, 5))
    ensures New({0, 1, 2, 3, 4}, 1, 4) == Success(FairnessConstraint({0, 1, 2, 3, 4}, 1, 4))
    ensures New({0, 1, 2, 10, 5}, 0, -1) == Failure(UbNegative)
    ensures New({0, 1, 2, 10, 5}, 4, 3) == Failure(LbAboveUb)
    ensures New({0, 1, 2, 10, 5}, 10, 10) == Failure(LbAboveGroupSize)
    ensures New({0, -1, 2, 10, 5}, 2, 4) == Failure(NegativeIndex)
    ensures New({}, 0, 3) == Failure(EmptyIndices)
  {
    assert |{0, 1, 2, 3, 4}| == 5;
    assert |{0, 1, 2, 10, 5}| == 5;
    assert |{0, -1, 2, 10, 5}| == 5;
    assert -1 in {0, -1, 2, 10, 5};
  }

  /** `sorted_indices` of the first constraint test. */
  lemma SortedIndicesExample()
    ensures FairnessConstraint({0, 1, 2, 10, 5}, 2, 4).SortedIndices() == [0, 1, 2, 5, 10]
  {
    var r := FairnessConstraint({0, 1, 2, 10, 5}, 2, 4).SortedIndices();
    assert |{0, 1, 2, 10, 5}| == 5;
    assert |r| == 5;
    assert forall x :: x in r <==> x in {0, 1, 2, 10, 5};
    assert 0 in r && 1 in r && 2 in r && 5 in r && 10 in r;
    assert r[0] == 0 by {
      assert forall k :: 0 <= k < 5 ==> r[k] >= 0;
      assert exists k :: 0 <= k < 5 && r[k] == 0;
    }
    assert r[1] == 1;
    assert r[2] == 2;
    assert r[3] == 5;
    assert r[4] == 10;
  }
}
