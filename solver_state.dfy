/**
 * The solver's mutable state (brtp/math/optim/discrete/max_div/_solver_state.py):
 * a selected / unselected split of the candidate indices `0..m-1`, in-place
 * moves between the two sets, and a memoised two-part metric
 * `(constraint_metric, separation_metric)`.
 *
 * `ordered_weighted_mean` is not interpreted: the state carries it as the
 * function-valued field `owa`.
 */
module SolverStates {
  import opened Wrappers
  import opened Sorting
  import opened ExtReals
  import opened Constraints
  import opened Distances

  // ---------------------------------------------------------------------------
  //  The constraint metric
  // ---------------------------------------------------------------------------

  function Square(x: real): real
  {
    x * x
  }

  function MaxReal(a: real, b: real): real
  {
    if a < b then b else a
  }

  /** Number of selected members of the constraint's group. */
  function SelectedCount(c: FairnessConstraint, sel: set<int>): nat
  {
    |c.indices * sel|
  }

  /** The constraint holds for the selection: its count lies in `[lb, ub]`. */
  predicate Satisfied(c: FairnessConstraint, sel: set<int>)
  {
    c.lb <= SelectedCount(c, sel) <= c.ub
  }

  /** How far the count is outside `[lb, ub]`, relative to the group size. */
  function Violation(c: FairnessConstraint, sel: set<int>): real
    requires c.Valid()
  {
    var k := SelectedCount(c, sel);
    MaxReal(MaxReal(0.0, (k - c.ub) as real), (c.lb - k) as real) / c.GroupSize() as real
  }

  /** Sum of the squared relative violations of `cons` (summed front to back). */
  function ConsMetric(cons: seq<FairnessConstraint>, sel: set<int>): real
    requires forall i :: 0 <= i < |cons| ==> cons[i].Valid()
  {
    if cons == [] then 0.0
    else
      var v := Violation(cons[|cons| - 1], sel);
      ConsMetric(cons[..|cons| - 1], sel) + Square(v)
  }

  /** A relative violation is non-negative and zero exactly when the constraint holds. */
  lemma ViolationZeroIffSatisfied(c: FairnessConstraint, sel: set<int>)
    requires c.Valid()
    ensures Violation(c, sel) >= 0.0
    ensures Violation(c, sel) == 0.0 <==> Satisfied(c, sel)
  {
    var k := SelectedCount(c, sel);
    var x := MaxReal(MaxReal(0.0, (k - c.ub) as real), (c.lb - k) as real);
    var g := c.GroupSize() as real;
    assert g > 0.0;
    assert x >= 0.0;
    assert x / g >= 0.0;
    assert x / g == 0.0 <==> x == 0.0 by {
      assert (x / g) * g == x;
    }
  }

  /** A square is non-negative, and positive unless its base is zero. */
  lemma SquareSign(x: real)
    ensures Square(x) >= 0.0
    ensures x != 0.0 ==> Square(x) > 0.0
  {
    // The solver does not derive `x * x > 0.0` from `x != 0.0` alone; the
    // step has to be stated.
    if x != 0.0 {
      calc {
        Square(x);
      ==
        x * x;
      >
        0.0;
      }
    }
  }

  /** The constraint metric is non-negative and zero exactly when every constraint holds. */
  lemma {:induction false} ConsMetricZeroIffAllSatisfied(cons: seq<FairnessConstraint>, sel: set<int>)
    requires forall i :: 0 <= i < |cons| ==> cons[i].Valid()
    ensures ConsMetric(cons, sel) >= 0.0
    ensures ConsMetric(cons, sel) == 0.0 <==> forall i :: 0 <= i < |cons| ==> Satisfied(cons[i], sel)
  {
    if cons != [] {
      var n := |cons| - 1;
      var init := cons[..n];
      ConsMetricZeroIffAllSatisfied(init, sel);
      ViolationZeroIffSatisfied(cons[n], sel);
      SquareSign(Violation(cons[n], sel));
      assert (forall i :: 0 <= i < n ==> Satisfied(cons[i], sel))
        <==> forall i :: 0 <= i < |init| ==> Satisfied(init[i], sel) by {
        assert forall i :: 0 <= i < n ==> init[i] == cons[i];
      }
    }
  }

  /** Dividing by a positive group size keeps a strict order. */
  lemma DivideKeepsOrder(x: real, y: real, g: real)
    requires x < y && g > 0.0
    ensures x / g < y / g
  {
    assert (x / g) * g == x && (y / g) * g == y;
  }

  /** Above `ub`, selecting more group members makes the violation strictly larger. */
  lemma ViolationGrowsAboveUb(c: FairnessConstraint, s1: set<int>, s2: set<int>)
    requires c.Valid()
    requires c.ub <= SelectedCount(c, s1) < SelectedCount(c, s2)
    ensures Violation(c, s1) < Violation(c, s2)
  {
    var k1, k2 := SelectedCount(c, s1), SelectedCount(c, s2);
    assert MaxReal(MaxReal(0.0, (k1 - c.ub) as real), (c.lb - k1) as real) == (k1 - c.ub) as real;
    assert MaxReal(MaxReal(0.0, (k2 - c.ub) as real), (c.lb - k2) as real) == (k2 - c.ub) as real;
    DivideKeepsOrder((k1 - c.ub) as real, (k2 - c.ub) as real, c.GroupSize() as real);
  }

  /** Below `lb`, selecting fewer group members makes the violation strictly larger. */
  lemma ViolationGrowsBelowLb(c: FairnessConstraint, s1: set<int>, s2: set<int>)
    requires c.Valid()
    requires SelectedCount(c, s2) < SelectedCount(c, s1) <= c.lb
    ensures Violation(c, s1) < Violation(c, s2)
  {
    var k1, k2 := SelectedCount(c, s1), SelectedCount(c, s2);
    assert MaxReal(MaxReal(0.0, (k1 - c.ub) as real), (c.lb - k1) as real) == (c.lb - k1) as real;
    assert MaxReal(MaxReal(0.0, (k2 - c.ub) as real), (c.lb - k2) as real) == (c.lb - k2) as real;
    DivideKeepsOrder((c.lb - k1) as real, (c.lb - k2) as real, c.GroupSize() as real);
  }

  /** Squaring keeps the order of non-negative values. */
  lemma SquareMonotone(a: real, b: real)
    requires 0.0 <= a <= b
    ensures Square(a) <= Square(b)
  {
    calc {
      Square(a);
    ==
      a * a;
    <=
      a * b;
    <=
      b * b;
    ==
      Square(b);
    }
  }

  /**
   * The constraint metric is monotone in the violations: when no constraint is
   * violated more under `s1` than under `s2`, the metric of `s1` is at most that of `s2`.
   */
  lemma {:induction false} ConsMetricMonotone(cons: seq<FairnessConstraint>, s1: set<int>, s2: set<int>)
    requires forall i :: 0 <= i < |cons| ==> cons[i].Valid()
    requires forall i :: 0 <= i < |cons| ==> Violation(cons[i], s1) <= Violation(cons[i], s2)
    ensures ConsMetric(cons, s1) <= ConsMetric(cons, s2)
  {
    if cons != [] {
      var n := |cons| - 1;
      var init := cons[..n];
      assert forall i :: 0 <= i < |init| ==> init[i] == cons[i];
      ConsMetricMonotone(init, s1, s2);
      ViolationZeroIffSatisfied(cons[n], s1);
      SquareMonotone(Violation(cons[n], s1), Violation(cons[n], s2));
    }
  }

  // ---------------------------------------------------------------------------
  //  The separation metric
  // ---------------------------------------------------------------------------

  /** Every entry of `s` is a candidate index of `spec`. */
  predicate IndicesIn(s: seq<int>, m: int)
  {
    forall q :: 0 <= q < |s| ==> 0 <= s[q] < m
  }

  /**
   * Distance from the `p`-th vector of `s` to its nearest neighbour among
   * positions `0..n-1` other than `p` (Inf when there is none).
   */
  function Nearest(spec: DistanceSpec, s: seq<int>, p: nat, n: nat): ExtReal
    requires spec.Valid() && IndicesIn(s, spec.M()) && p < |s| && n <= |s|
  {
    if n == 0 then Inf
    else
      var r := Nearest(spec, s, p, n - 1);
      if n - 1 == p then r else ExtReals.Min(r, Fin(spec.Apply(s[p], s[n - 1])))
  }

  /**
   * `Nearest` is the minimum over the other positions below `n`: no candidate
   * is smaller, it is attained when finite, and it is Inf exactly when there
   * is no candidate.
   */
  lemma {:induction false} NearestIsMinimum(spec: DistanceSpec, s: seq<int>, p: nat, n: nat)
    requires spec.Valid() && IndicesIn(s, spec.M()) && p < |s| && n <= |s|
    ensures forall q :: 0 <= q < n && q != p ==> !Less(Fin(spec.Apply(s[p], s[q])), Nearest(spec, s, p, n))
    ensures Nearest(spec, s, p, n).Fin? ==>
      exists q :: 0 <= q < n && q != p && Nearest(spec, s, p, n) == Fin(spec.Apply(s[p], s[q]))
    ensures Nearest(spec, s, p, n) == Inf <==> (n == 0 || (n == 1 && p == 0))
  {
    if n > 0 {
      NearestIsMinimum(spec, s, p, n - 1);
      var r := Nearest(spec, s, p, n - 1);
      if n - 1 != p {
        var here := Fin(spec.Apply(s[p], s[n - 1]));
        forall q | 0 <= q < n && q != p
          ensures !Less(Fin(spec.Apply(s[p], s[q])), Nearest(spec, s, p, n))
        {
          if q < n - 1 {
            LessIsStrictTotalOrder(Fin(spec.Apply(s[p], s[q])), r, ExtReals.Min(r, here));
          }
        }
        if Nearest(spec, s, p, n) != here {
          assert Nearest(spec, s, p, n) == r;
        }
      }
    }
  }

  /**
   * `sep_per_vector`: a list of length `m` whose position `p < |s|` holds the
   * nearest-neighbour distance of the `p`-th vector of `s`; the remaining
   * positions stay Inf.
   */
  function SepVector(spec: DistanceSpec, s: seq<int>, m: nat): (v: seq<ExtReal>)
    requires spec.Valid() && IndicesIn(s, spec.M())
    ensures |v| == m
  {
    seq(m, p requires 0 <= p < m => if p < |s| then Nearest(spec, s, p, |s|) else Inf)
  }

  /** `1 / weighted_mean_sep`, with `1 / 0 == inf` and `1 / inf == 0`. */
  function SepMetric(w: ExtReal): ExtReal
  {
    match w
    case Inf => Fin(0.0)
    case Fin(x) => if x == 0.0 then Inf else Fin(1.0 / x)
  }

  /**
   * A larger mean separation gives a smaller separation metric, and a mean
   * separation of zero gives the worst one.
   */
  lemma SepMetricIsAntitone(x: real, y: real)
    requires 0.0 < x < y
    ensures Less(SepMetric(Fin(y)), SepMetric(Fin(x)))
    ensures Less(SepMetric(Fin(x)), SepMetric(Fin(0.0)))
    ensures Less(SepMetric(Inf), SepMetric(Fin(y)))
  {
    var a, b := 1.0 / x, 1.0 / y;
    assert a * x == 1.0 && b * y == 1.0;
    assert a > 0.0 && b > 0.0;
    if b >= a {
      assert b * y >= a * y;
      assert a * y > a * x;
    }
  }

  /** `sorted(selected)` of a selection within `0..m-1` is a list of at most `m` candidate indices. */
  lemma SortedSelectionInRange(sel: set<int>, m: nat)
    requires sel <= Range(m)
    ensures IndicesIn(SortedSeq(sel), m) && StrictlyIncreasing(SortedSeq(sel)) && |SortedSeq(sel)| <= m
  {
    var sorted := SortedSeq(sel);
    SortedSeqProperties(sel);
    SubsetOfRangeSize(sel, m);
    forall q | 0 <= q < |sorted| ensures 0 <= sorted[q] < m {
      assert sorted[q] in sel;
    }
  }

  /** The metric `score()` computes for a selection, given the constraints, the distances and the mean. */
  function ScoreOf(cons: seq<FairnessConstraint>, spec: DistanceSpec, owa: (seq<ExtReal>, real) -> ExtReal,
                   m: nat, sel: set<int>): Metric
    requires forall i :: 0 <= i < |cons| ==> cons[i].Valid()
    requires spec.Valid() && spec.M() == m && sel <= Range(m)
  {
    var sorted := SortedSeq(sel);
    SortedSelectionInRange(sel, m);
    Metric(Fin(ConsMetric(cons, sel)), SepMetric(owa(SepVector(spec, sorted, m), -1.0)))
  }

  /** The constraint part of the metric is finite, non-negative, and zero iff every constraint holds. */
  lemma ScoreConsPart(cons: seq<FairnessConstraint>, spec: DistanceSpec, owa: (seq<ExtReal>, real) -> ExtReal,
                      m: nat, sel: set<int>)
    requires forall i :: 0 <= i < |cons| ==> cons[i].Valid()
    requires spec.Valid() && spec.M() == m && sel <= Range(m)
    ensures ScoreOf(cons, spec, owa, m, sel).cons.Fin?
    ensures ScoreOf(cons, spec, owa, m, sel).cons.r >= 0.0
    ensures ScoreOf(cons, spec, owa, m, sel).cons == Fin(0.0) <==>
      forall i :: 0 <= i < |cons| ==> Satisfied(cons[i], sel)
  {
    ConsMetricZeroIffAllSatisfied(cons, sel);
  }

  // ---------------------------------------------------------------------------
  //  Moving indices between the two sets
  // ---------------------------------------------------------------------------

  /** The exceptions `modify` can raise, with the offending index. */
  datatype ModifyError =
    | AlreadySelected(index: int)   // ValueError: "Cannot add ...: already selected"
    | NotSelected(index: int)       // ValueError: "Cannot remove ...: wasn't selected"
    | MissingKey(index: int)        // KeyError from `set.remove`

  datatype Selection = Selection(selected: set<int>, unselected: set<int>)

  /** The two sets are a disjoint cover of `0..m-1`. */
  predicate Partitioned(s: Selection, m: int)
  {
    s.selected * s.unselected == {} && s.selected + s.unselected == Range(m)
  }

  /** Where `modify` stops: the sets reached, whether a move happened, and the exception if one was raised. */
  datatype Outcome = Outcome(sel: Selection, moved: bool, err: Option<ModifyError>)

  /** The `add` loop: each index must not be selected yet; it is added, then removed from unselected. */
  function AddAll(s: Selection, add: seq<int>, moved: bool): Outcome
    decreases |add|
  {
    if add == [] then Outcome(s, moved, None)
    else
      var a := add[0];
      if a in s.selected then Outcome(s, moved, Some(AlreadySelected(a)))
      else if a !in s.unselected then Outcome(Selection(s.selected + {a}, s.unselected), moved, Some(MissingKey(a)))
      else AddAll(Selection(s.selected + {a}, s.unselected - {a}), add[1..], true)
  }

  /** The `remove` loop: each index must not be unselected; it is removed from selected, then added to unselected. */
  function RemoveAll(s: Selection, remove: seq<int>, moved: bool): Outcome
    decreases |remove|
  {
    if remove == [] then Outcome(s, moved, None)
    else
      var r := remove[0];
      if r in s.unselected then Outcome(s, moved, Some(NotSelected(r)))
      else if r !in s.selected then Outcome(s, moved, Some(MissingKey(r)))
      else RemoveAll(Selection(s.selected - {r}, s.unselected + {r}), remove[1..], true)
  }

  /** `modify(add, remove)`: all additions first, then all removals; the first exception stops it. */
  function ModifyOutcome(s: Selection, add: seq<int>, remove: seq<int>): Outcome
  {
    var o := AddAll(s, add, false);
    if o.err.Some? then o else RemoveAll(o.sel, remove, o.moved)
  }

  predicate Distinct(s: seq<int>)
  {
    forall i, j :: 0 <= i < j < |s| ==> s[i] != s[j]
  }

  function Elems(s: seq<int>): set<int>
  {
    set x | x in s
  }

  /** A sequence is distinct exactly when its tail is distinct and does not contain its head. */
  lemma DistinctCons(s: seq<int>)
    requires s != []
    ensures Distinct(s) <==> Distinct(s[1..]) && s[0] !in s[1..]
  {
    var rest := s[1..];
    if Distinct(s) {
      forall i, j | 0 <= i < j < |rest| ensures rest[i] != rest[j] {
        assert rest[i] == s[i + 1] && rest[j] == s[j + 1];
      }
    }
    if Distinct(rest) && s[0] !in rest {
      forall i, j | 0 <= i < j < |s| ensures s[i] != s[j] {
        if i == 0 {
          assert s[j] == rest[j - 1];
        } else {
          assert s[i] == rest[i - 1] && s[j] == rest[j - 1];
        }
      }
    }
  }

  /**
   * On a partitioned selection the additions all succeed exactly when they
   * are distinct unselected indices; they then move from one set to the other.
   */
  lemma {:induction false} AddAllOnPartition(s: Selection, m: int, add: seq<int>, moved: bool)
    requires Partitioned(s, m)
    ensures var o := AddAll(s, add, moved);
      && (o.err.None? <==> Distinct(add) && Elems(add) <= s.unselected)
      && (o.err.None? ==>
            && o.sel == Selection(s.selected + Elems(add), s.unselected - Elems(add))
            && Partitioned(o.sel, m)
            && o.moved == (moved || add != []))
    decreases |add|
  {
    if add != [] {
      var a := add[0];
      var rest := add[1..];
      assert add == [a] + rest;
      assert Elems(add) == {a} + Elems(rest);
      DistinctCons(add);
      if a !in s.selected && a in s.unselected {
        var s' := Selection(s.selected + {a}, s.unselected - {a});
        AddAllOnPartition(s', m, rest, true);
      }
    }
  }

  /**
   * On a partitioned selection the removals all succeed exactly when they are
   * distinct selected indices; they then move back to the unselected set.
   */
  lemma {:induction false} RemoveAllOnPartition(s: Selection, m: int, remove: seq<int>, moved: bool)
    requires Partitioned(s, m)
    ensures var o := RemoveAll(s, remove, moved);
      && (o.err.None? <==> Distinct(remove) && Elems(remove) <= s.selected)
      && (o.err.None? ==>
            && o.sel == Selection(s.selected - Elems(remove), s.unselected + Elems(remove))
            && Partitioned(o.sel, m)
            && o.moved == (moved || remove != []))
    decreases |remove|
  {
    if remove != [] {
      var r := remove[0];
      var rest := remove[1..];
      assert remove == [r] + rest;
      assert Elems(remove) == {r} + Elems(rest);
      DistinctCons(remove);
      if r !in s.unselected && r in s.selected {
        var s' := Selection(s.selected - {r}, s.unselected + {r});
        RemoveAllOnPartition(s', m, rest, true);
      }
    }
  }

  /**
   * A whole `modify` on a partitioned selection: it succeeds exactly when the
   * additions are distinct unselected indices and the removals distinct
   * indices selected after the additions; it then keeps the partition, and
   * it has moved something exactly when `add` or `remove` is non-empty.
   */
  lemma ModifyOnPartition(s: Selection, m: int, add: seq<int>, remove: seq<int>)
    requires Partitioned(s, m)
    ensures var o := ModifyOutcome(s, add, remove);
      && (o.err.None? <==>
            && Distinct(add) && Elems(add) <= s.unselected
            && Distinct(remove) && Elems(remove) <= s.selected + Elems(add))
      && (o.err.None? ==>
            && o.sel == Selection((s.selected + Elems(add)) - Elems(remove),
                                  (s.unselected - Elems(add)) + Elems(remove))
            && Partitioned(o.sel, m)
            && o.moved == (add != [] || remove != []))
  {
    AddAllOnPartition(s, m, add, false);
    var o := AddAll(s, add, false);
    if o.err.None? {
      RemoveAllOnPartition(o.sel, m, remove, o.moved);
    }
  }

  /** `modify([i], [])` of one unselected index moves exactly that index and keeps the partition. */
  lemma AddOneOnPartition(s: Selection, m: int, i: int)
    requires Partitioned(s, m) && i in s.unselected
    ensures ModifyOutcome(s, [i], []) == Outcome(Selection(s.selected + {i}, s.unselected - {i}), true, None)
    ensures Partitioned(Selection(s.selected + {i}, s.unselected - {i}), m)
  {
    ModifyOnPartition(s, m, [i], []);
    assert Elems([i]) == {i};
  }

  /**
   * An exception part-way through the additions keeps the earlier moves: when
   * the first `p` additions are valid and addition `p` is not, the first `p`
   * indices have moved, and addition `p` raises. If it is already selected,
   * that is a `ValueError` and nothing more changes. Otherwise, `set.remove`
   * raises a `KeyError` after the index has joined the selected set.
   */
  lemma {:induction false} AddAllStopsAt(s: Selection, m: int, add: seq<int>, moved: bool, p: nat)
    requires Partitioned(s, m)
    requires p < |add| && Distinct(add[..p]) && Elems(add[..p]) <= s.unselected
    requires add[p] !in s.unselected - Elems(add[..p])
    ensures var e := Elems(add[..p]); var a := add[p];
      AddAll(s, add, moved) ==
        if a in s.selected + e then
          Outcome(Selection(s.selected + e, s.unselected - e), moved || p > 0, Some(AlreadySelected(a)))
        else
          Outcome(Selection(s.selected + e + {a}, s.unselected - e), moved || p > 0, Some(MissingKey(a)))
    decreases p
  {
    if p > 0 {
      var a := add[0];
      var rest := add[1..];
      assert add[..p][1..] == rest[..p - 1];
      assert add[..p] == [a] + rest[..p - 1];
      assert Elems(add[..p]) == {a} + Elems(rest[..p - 1]);
      DistinctCons(add[..p]);
      var s' := Selection(s.selected + {a}, s.unselected - {a});
      AddAllStopsAt(s', m, rest, true, p - 1);
    }
  }

  /**
   * An exception part-way through the removals keeps the earlier moves: when
   * the first `p` removals are valid and removal `p` is not, the first `p`
   * indices have moved back, and removal `p` raises a `ValueError` if the
   * index is unselected, or a `KeyError` if it is in neither set.
   */
  lemma {:induction false} RemoveAllStopsAt(s: Selection, m: int, remove: seq<int>, moved: bool, p: nat)
    requires Partitioned(s, m)
    requires p < |remove| && Distinct(remove[..p]) && Elems(remove[..p]) <= s.selected
    requires remove[p] !in s.selected - Elems(remove[..p])
    ensures var e := Elems(remove[..p]); var r := remove[p];
      RemoveAll(s, remove, moved) ==
        Outcome(Selection(s.selected - e, s.unselected + e), moved || p > 0,
                Some(if r in s.unselected + e then NotSelected(r) else MissingKey(r)))
    decreases p
  {
    if p > 0 {
      var r := remove[0];
      var rest := remove[1..];
      assert remove[..p][1..] == rest[..p - 1];
      assert remove[..p] == [r] + rest[..p - 1];
      assert Elems(remove[..p]) == {r} + Elems(rest[..p - 1]);
      DistinctCons(remove[..p]);
      var s' := Selection(s.selected - {r}, s.unselected + {r});
      RemoveAllStopsAt(s', m, rest, true, p - 1);
    }
  }

  /**
   * A `modify` whose additions all succeed but whose removal `p` fails keeps
   * every addition and the first `p` removals, and reports the failed removal.
   */
  lemma ModifyStopsInRemove(s: Selection, m: int, add: seq<int>, remove: seq<int>, p: nat)
    requires Partitioned(s, m)
    requires Distinct(add) && Elems(add) <= s.unselected
    requires p < |remove| && Distinct(remove[..p]) && Elems(remove[..p]) <= s.selected + Elems(add)
    requires remove[p] !in (s.selected + Elems(add)) - Elems(remove[..p])
    ensures var a := Elems(add); var e := Elems(remove[..p]); var r := remove[p];
      ModifyOutcome(s, add, remove) ==
        Outcome(Selection((s.selected + a) - e, (s.unselected - a) + e), add != [] || p > 0,
                Some(if r in (s.unselected - a) + e then NotSelected(r) else MissingKey(r)))
  {
    AddAllOnPartition(s, m, add, false);
    var o := AddAll(s, add, false);
    RemoveAllStopsAt(o.sel, m, remove, o.moved, p);
  }

  /** An exception part-way through keeps the earlier moves: adding `[0, 0]` moves `0` and then raises. */
  lemma PartialModifyPersists()
    ensures ModifyOutcome(Selection({}, {0, 1, 2}), [0, 0], [])
         == Outcome(Selection({0}, {1, 2}), true, Some(AlreadySelected(0)))
    ensures ModifyOutcome(Selection({1}, {0, 2}), [0], [2])
         == Outcome(Selection({0, 1}, {2}), true, Some(NotSelected(2)))
  {
    assert {0, 1, 2} - {0} == {1, 2};
    assert {0, 2} - {0} == {2};
  }

  /** Adding an index outside `0..m-1` puts it in the selected set before `set.remove` raises. */
  lemma OutOfRangeAddBreaksPartition()
    ensures ModifyOutcome(Selection({}, {0, 1}), [5], [])
         == Outcome(Selection({5}, {0, 1}), false, Some(MissingKey(5)))
    ensures !Partitioned(Selection({5}, {0, 1}), 2)
  {
    assert 5 !in Range(2);
  }

  // ---------------------------------------------------------------------------
  //  The state object
  // ---------------------------------------------------------------------------

  class SolverState {
    const vectors: Matrix
    const m: nat
    const n: nat
    const cons: seq<FairnessConstraint>
    const dist: Provider
    const owa: (seq<ExtReal>, real) -> ExtReal
    var selected: set<int>
    var unselected: set<int>
    var scoreCache: Option<Metric>

    /** The fixed parts agree with each other; the selection itself is unconstrained. */
    ghost predicate Valid()
      reads this, dist.Mutables()
    {
      && vectors.Valid() && m == vectors.M() && n == vectors.cols
      && dist.Valid() && dist.Spec().vectors == vectors
      && forall i :: 0 <= i < |cons| ==> cons[i].Valid()
    }

    function Current(): Selection
      reads this
    {
      Selection(selected, unselected)
    }

    /** The memoised metric, if any, is the metric of the current selection. */
    ghost predicate CacheFresh()
      reads this
      requires forall i :: 0 <= i < |cons| ==> cons[i].Valid()
      requires dist.Spec().Valid() && dist.Spec().M() == m
    {
      scoreCache.Some? ==>
        selected <= Range(m) && scoreCache.value == ScoreOf(cons, dist.Spec(), owa, m, selected)
    }

    /**
     * `__init__`: `i_selected or set()` and `i_unselected or (set(range(m)) - selected)`;
     * an empty set given for either counts as not given.
     */
    constructor (vectors: Matrix, cons: seq<FairnessConstraint>, dist: Provider,
                 owa: (seq<ExtReal>, real) -> ExtReal,
                 iSelected: Option<set<int>> := None, iUnselected: Option<set<int>> := None)
      requires vectors.Valid() && dist.Valid() && dist.Spec().vectors == vectors
      requires forall i :: 0 <= i < |cons| ==> cons[i].Valid()
      ensures Valid()
      ensures this.vectors == vectors && this.cons == cons && this.dist == dist && this.owa == owa
      ensures selected == (if iSelected.Some? then iSelected.value else {})
      ensures unselected ==
        (if iUnselected.Some? && iUnselected.value != {} then iUnselected.value else Range(m) - selected)
      ensures scoreCache == None
      ensures iUnselected.None? && selected <= Range(m) ==> Partitioned(Current(), m)
    {
      this.vectors := vectors;
      this.m := vectors.M();
      this.n := vectors.cols;
      this.cons := cons;
      this.dist := dist;
      this.owa := owa;
      var sel := if iSelected.Some? then iSelected.value else {};
      selected := sel;
      unselected := if iUnselected.Some? && iUnselected.value != {} then iUnselected.value else Range(vectors.M()) - sel;
      scoreCache := None;
    }

    /** `n_selected`: on a partitioned state, selected and unselected counts add up to `m`. */
    function NSelected(): (r: nat)
      reads this
      ensures r == |selected|
      ensures Partitioned(Current(), m) ==> r + |unselected| == m
    {
      if Partitioned(Current(), m) then
        SubsetOfRangeSize(selected, m);
        assert unselected == Range(m) - selected;
        |selected|
      else
        |selected|
    }

    /**
     * `copy`: a fresh state with equal sets and the same constraints, distance
     * provider and mean, and no memoised metric.
     */
    method Copy() returns (c: SolverState)
      requires Valid()
      ensures fresh(c) && c.Valid()
      ensures c.vectors == vectors && c.cons == cons && c.dist == dist && c.owa == owa && c.m == m
      ensures c.selected == selected && c.scoreCache == None
      ensures c.unselected == if unselected != {} then unselected else Range(m) - selected
      ensures Partitioned(Current(), m) ==> c.unselected == unselected
    {
      c := new SolverState(vectors, cons, dist, owa, Some(selected), Some(unselected));
    }

    /** `_clear_cached_values`. */
    method ClearCachedValues()
      modifies this`scoreCache
      ensures scoreCache == None
    {
      scoreCache := None;
    }

    /**
     * `modify(add, remove)`: moves indices in place, one by one, and returns the
     * exception that stopped it, if any. Moves made before an exception stay;
     * the memo is cleared only when the whole call succeeded and moved something.
     */
    method Modify(add: seq<int> := [], remove: seq<int> := []) returns (err: Option<ModifyError>)
      modifies this`selected, this`unselected, this`scoreCache
      ensures var o := ModifyOutcome(old(Current()), add, remove);
        && Current() == o.sel && err == o.err
        && scoreCache == (if o.err.None? && o.moved then None else old(scoreCache))
    {
      var modified := false;
      ghost var s0 := Current();
      for k := 0 to |add|
        invariant AddAll(Current(), add[k..], modified) == AddAll(s0, add, false)
        invariant scoreCache == old(scoreCache)
      {
        var a := add[k];
        assert add[k..] == [a] + add[k + 1..];
        if a in selected {
          err := Some(AlreadySelected(a));
          return;
        } else {
          selected := selected + {a};
          if a !in unselected {
            err := Some(MissingKey(a));
            return;
          }
          unselected := unselected - {a};
          modified := true;
        }
      }
      ghost var s1 := Current();
      assert AddAll(s0, add, false) == Outcome(s1, modified, None);
      for k := 0 to |remove|
        invariant RemoveAll(Current(), remove[k..], modified) == RemoveAll(s1, remove, AddAll(s0, add, false).moved)
        invariant scoreCache == old(scoreCache)
      {
        var r := remove[k];
        assert remove[k..] == [r] + remove[k + 1..];
        if r in unselected {
          err := Some(NotSelected(r));
          return;
        } else {
          if r !in selected {
            err := Some(MissingKey(r));
            return;
          }
          selected := selected - {r};
          unselected := unselected + {r};
          modified := true;
        }
      }
      if modified {
        ClearCachedValues();
      }
      err := None;
    }

    /**
     * `score()`: the memoised metric if there is one; otherwise the sum of squared
     * relative violations and the reciprocal ordered-weighted mean of the
     * nearest-neighbour distances of the selected vectors, which is then memoised.
     */
    method Score() returns (s: Metric)
      requires Valid() && selected <= Range(m)
      modifies this`scoreCache, dist.Mutables()
      ensures Valid()
      ensures old(scoreCache).Some? ==> s == old(scoreCache).value && scoreCache == old(scoreCache)
      ensures old(scoreCache).None? ==> s == ScoreOf(cons, dist.Spec(), owa, m, selected) && scoreCache == Some(s)
      ensures old(CacheFresh()) ==> CacheFresh() && s == ScoreOf(cons, dist.Spec(), owa, m, selected)
    {
      if scoreCache.Some? {
        return scoreCache.value;
      }
      ghost var sel := selected;
      s := ComputeScore(cons, dist, owa, m, selected);
      assert selected == sel && s == ScoreOf(cons, dist.Spec(), owa, m, sel);
      scoreCache := Some(s);
    }

    /** `build`: a state with nothing selected, using the given provider or else an eager L2 one. */
    static method Build(vectors: Matrix, constraints: seq<FairnessConstraint>,
                        owa: (seq<ExtReal>, real) -> ExtReal, sqrt: real -> real,
                        dist: Option<Provider> := None) returns (state: SolverState)
      requires vectors.Valid()
      requires dist.Some? ==> dist.value.Valid() && dist.value.Spec().vectors == vectors
      requires forall i :: 0 <= i < |constraints| ==> constraints[i].Valid()
      ensures fresh(state) && state.Valid()
      ensures state.vectors == vectors && state.cons == constraints && state.owa == owa
      ensures state.dist == (if dist.Some? then dist.value else EagerProvider(Eager(vectors, sqrt)))
      ensures state.selected == {} && state.unselected == Range(vectors.M()) && state.scoreCache == None
      ensures Partitioned(state.Current(), state.m)
    {
      var p := if dist.Some? then dist.value else EagerProvider(Eager(vectors, sqrt));
      state := new SolverState(vectors, constraints, p, owa);
    }
  }

  /** The computation `score()` memoises, on the state's constraints, distances, mean and selection. */
  method ComputeScore(cons: seq<FairnessConstraint>, dist: Provider, owa: (seq<ExtReal>, real) -> ExtReal,
                      m: nat, selected: set<int>) returns (s: Metric)
    requires forall i :: 0 <= i < |cons| ==> cons[i].Valid()
    requires dist.Valid() && dist.Spec().M() == m && selected <= Range(m)
    modifies dist.Mutables()
    ensures dist.Valid()
    ensures s == ScoreOf(cons, dist.Spec(), owa, m, selected)
  {
    // --- constraint metric ---
    var metricCons := ConstraintMetric(cons, selected);

    // --- separation metric ---
    var sorted := SortedSeq(selected);
    SortedSelectionInRange(selected, m);
    var sep := SeparationPerVector(dist, sorted, m);

    var weightedMeanSep := owa(sep, -1.0);
    var metricSep: ExtReal;
    if weightedMeanSep == Fin(0.0) {
      metricSep := Inf;
    } else if weightedMeanSep.Inf? {
      metricSep := Fin(0.0);
    } else {
      metricSep := Fin(1.0 / weightedMeanSep.r);
    }

    s := Metric(Fin(metricCons), metricSep);
  }

  /**
   * The constraint part of `score()`: per constraint the selected count, its
   * relative violation, and the sum of the squares.
   */
  method ConstraintMetric(cons: seq<FairnessConstraint>, selected: set<int>) returns (metricCons: real)
    requires forall i :: 0 <= i < |cons| ==> cons[i].Valid()
    ensures metricCons == ConsMetric(cons, selected)
  {
    metricCons := 0.0;
    for k := 0 to |cons|
      invariant metricCons == ConsMetric(cons[..k], selected)
    {
      var c := cons[k];
      var cnt := |c.indices * selected|;
      var v := MaxReal(MaxReal(0.0, (cnt - c.ub) as real), (c.lb - cnt) as real) / c.GroupSize() as real;
      assert cons[..k + 1][..k] == cons[..k];
      metricCons := metricCons + v * v;
    }
    assert cons[..|cons|] == cons;
  }

  /**
   * The nested loops of `score()` that fill `sep_per_vector`: every pair of
   * positions `b < a` of the sorted selection is looked up once, and both
   * entries keep the smaller of their value and that distance.
   */
  method SeparationPerVector(dist: Provider, sorted: seq<int>, m: nat) returns (sep: seq<ExtReal>)
    requires dist.Valid() && dist.Spec().M() == m
    requires IndicesIn(sorted, m) && StrictlyIncreasing(sorted) && |sorted| <= m
    modifies dist.Mutables()
    ensures dist.Valid()
    ensures sep == SepVector(dist.Spec(), sorted, m)
  {
    ghost var spec := dist.Spec();
    sep := seq(m, _ => Inf);
    for a := 0 to |sorted|
      invariant dist.Valid()
      invariant |sep| == m
      invariant forall p :: 0 <= p < a ==> sep[p] == Nearest(spec, sorted, p, a)
      invariant forall p :: a <= p < m ==> sep[p] == Inf
    {
      sep := RelaxRow(dist, sorted, m, a, sep);
    }
    assert sep == SepVector(spec, sorted, m);
  }

  /** One pass of the inner loop: position `a` against every earlier position. */
  method RelaxRow(dist: Provider, sorted: seq<int>, m: nat, a: nat, sep0: seq<ExtReal>) returns (sep: seq<ExtReal>)
    requires dist.Valid() && dist.Spec().M() == m
    requires IndicesIn(sorted, m) && StrictlyIncreasing(sorted) && a < |sorted| <= m
    requires |sep0| == m
    requires forall p :: 0 <= p < a ==> sep0[p] == Nearest(dist.Spec(), sorted, p, a)
    requires forall p :: a <= p < m ==> sep0[p] == Inf
    modifies dist.Mutables()
    ensures dist.Valid() && |sep| == m
    ensures forall p :: 0 <= p < a + 1 ==> sep[p] == Nearest(dist.Spec(), sorted, p, a + 1)
    ensures forall p :: a + 1 <= p < m ==> sep[p] == Inf
  {
    ghost var spec := dist.Spec();
    sep := sep0;
    for b := 0 to a
      invariant dist.Valid()
      invariant |sep| == m
      invariant forall p :: 0 <= p < b ==> sep[p] == Nearest(spec, sorted, p, a + 1)
      invariant forall p :: b <= p < a ==> sep[p] == Nearest(spec, sorted, p, a)
      invariant sep[a] == Nearest(spec, sorted, a, b)
      invariant forall p :: a < p < m ==> sep[p] == Inf
    {
      var i, j := sorted[a], sorted[b];
      var d := Distance(dist, i, j);
      ApplyProperties(spec, i, j);
      sep := sep[a := ExtReals.Min(sep[a], Fin(d))];
      sep := sep[b := ExtReals.Min(sep[b], Fin(d))];
    }
  }

  /** Modifying a copy leaves the original's selection, and its memo, as they were. */
  method CopyIsIndependent(state: SolverState, add: seq<int>) returns (c: SolverState, err: Option<ModifyError>)
    requires state.Valid()
    ensures fresh(c)
    ensures state.selected == old(state.selected) && state.unselected == old(state.unselected)
    ensures state.scoreCache == old(state.scoreCache)
    ensures Partitioned(state.Current(), state.m) ==>
      var o := ModifyOutcome(state.Current(), add, []);
      c.Current() == o.sel && err == o.err
  {
    c := state.Copy();
    err := c.Modify(add, []);
  }
}
