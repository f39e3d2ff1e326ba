/**
 * The maximum-diversity solver (brtp/math/optim/discrete/max_div/_solver.py):
 * validates `k`, prepends a synthesized "exactly k of all candidates"
 * constraint, and runs the greedy phase 1 that grows the selection one index
 * at a time, each round keeping the first candidate whose metric is
 * lexicographically smallest. `solve` then raises `NotImplementedError`.
 *
 * Python's set iteration order is the parameter `order`, which lists the
 * elements of each set once.
 */
module Solver {
  import opened Wrappers
  import opened Sorting
  import opened ExtReals
  import opened Enums
  import opened Constraints
  import opened Distances
  import opened SolverStates

  /** The exceptions the solver raises. */
  datatype SolverError =
    | KExceedsCandidates                     // ValueError: cannot select k elements from only m
    | InvalidConstraint(e: ConstraintError)  // raised while building the synthesized constraint
    | NotImplemented                         // NotImplementedError after phase 1
    | AttributeError                         // `self._state.i_unselected()` does not exist

  /** `q` lists the elements of `s`, each once. */
  ghost predicate Enumerates(q: seq<int>, s: set<int>)
  {
    Distinct(q) && forall x :: x in q <==> x in s
  }

  /** An iteration order: every set is listed completely, without repeats. */
  ghost predicate IsIterationOrder(order: set<int> -> seq<int>)
  {
    forall s :: Enumerates(order(s), s)
  }

  /** `FairnessConstraint(indices=set(range(m)), lb=k, ub=k)`. */
  function SynthesizedConstraint(m: nat, k: int): (r: Result<FairnessConstraint, ConstraintError>)
    ensures r.Success? <==> 0 <= k <= m && 1 <= m
    ensures r.Success? ==> r.value == FairnessConstraint(Range(m), k, k) && r.value.Valid()
    ensures k < 0 ==> r == Failure(UbNegative)
    ensures 0 <= k <= m == 0 ==> r == Failure(EmptyIndices)
  {
    RangeSize(m);
    New(Range(m), k, k)
  }

  // ---------------------------------------------------------------------------
  //  Greedy phase 1, as a function of the selection
  // ---------------------------------------------------------------------------

  /** What scoring depends on: the constraints of the state, the distances, the mean and `m`. */
  datatype Context = Context(cons: seq<FairnessConstraint>, spec: DistanceSpec,
                             owa: (seq<ExtReal>, real) -> ExtReal, m: nat) {
    predicate Valid()
    {
      (forall i :: 0 <= i < |cons| ==> cons[i].Valid()) && spec.Valid() && spec.M() == m
    }

    /** The metric of a selection in this context. */
    function Eval(sel: set<int>): Metric
      requires Valid() && sel <= Range(m)
    {
      ScoreOf(cons, spec, owa, m, sel)
    }
  }

  /**
   * Position, among the first `t` entries, of the first entry no later one
   * beats: what the strict `<` of the candidate loop keeps after `t` candidates.
   */
  function FirstBest(scores: seq<Metric>, t: nat): (b: nat)
    requires 0 < t <= |scores|
    ensures b < t
  {
    if t == 1 then 0
    else
      var b := FirstBest(scores, t - 1);
      if MetricLess(scores[t - 1], scores[b]) then t - 1 else b
  }

  /** `FirstBest` is a minimum of the first `t` entries, and strictly better than every earlier entry. */
  lemma {:induction false} FirstBestIsFirstMinimum(scores: seq<Metric>, t: nat)
    requires 0 < t <= |scores|
    ensures forall q :: 0 <= q < t ==> !MetricLess(scores[q], scores[FirstBest(scores, t)])
    ensures forall q :: 0 <= q < FirstBest(scores, t) ==> MetricLess(scores[FirstBest(scores, t)], scores[q])
  {
    if t > 1 {
      var n := t - 1;
      FirstBestIsFirstMinimum(scores, n);
      var b := FirstBest(scores, n);
      forall q | 0 <= q < n
        ensures !MetricLess(scores[q], scores[FirstBest(scores, t)])
        ensures q < FirstBest(scores, t) ==> MetricLess(scores[FirstBest(scores, t)], scores[q])
      {
        MetricLessIsStrictTotalOrder(scores[n], scores[b], scores[q]);
        MetricLessIsStrictTotalOrder(scores[q], scores[n], scores[b]);
      }
      MetricLessIsStrictTotalOrder(scores[n], scores[b], scores[n]);
    }
  }

  /** The metric of each candidate added to `sel`, in iteration order. */
  function CandidateScores(ctx: Context, sel: set<int>, cands: seq<int>): (r: seq<Metric>)
    requires ctx.Valid() && sel <= Range(ctx.m) && forall q :: 0 <= q < |cands| ==> cands[q] in Range(ctx.m)
    ensures |r| == |cands|
    decreases |cands|
  {
    if cands == [] then []
    else
      var n := |cands| - 1;
      CandidateScores(ctx, sel, cands[..n]) + [ctx.Eval(sel + {cands[n]})]
  }

  /** Entry `q` of the scores is the metric of `sel` with candidate `q` added. */
  lemma {:induction false} CandidateScoresAt(ctx: Context, sel: set<int>, cands: seq<int>, q: nat)
    requires ctx.Valid() && sel <= Range(ctx.m) && forall q :: 0 <= q < |cands| ==> cands[q] in Range(ctx.m)
    requires q < |cands|
    ensures CandidateScores(ctx, sel, cands)[q] == ctx.Eval(sel + {cands[q]})
    decreases |cands|
  {
    var n := |cands| - 1;
    if q < n {
      CandidateScoresAt(ctx, sel, cands[..n], q);
    }
  }

  /** The candidates of a round: the unselected indices in iteration order. */
  function Candidates(m: nat, order: set<int> -> seq<int>, sel: set<int>): (r: seq<int>)
    requires IsIterationOrder(order)
    ensures Enumerates(r, Range(m) - sel)
    ensures forall q :: 0 <= q < |r| ==> r[q] in Range(m) && r[q] !in sel
  {
    var r := order(Range(m) - sel);
    EnumerationElements(r, Range(m) - sel);
    r
  }

  lemma EnumerationElements(q: seq<int>, s: set<int>)
    requires Enumerates(q, s)
    ensures forall i :: 0 <= i < |q| ==> q[i] in s
  {
    forall i | 0 <= i < |q| ensures q[i] in s {
      assert q[i] in q;
    }
  }

  /** While fewer than `m` indices are selected, a round has a candidate. */
  lemma CandidatesNonEmpty(m: nat, order: set<int> -> seq<int>, sel: set<int>)
    requires IsIterationOrder(order) && sel <= Range(m) && |sel| < m
    ensures |Candidates(m, order, sel)| > 0
  {
    SubsetOfRangeSize(sel, m);
    var x := AnyElement(Range(m) - sel);
    assert x in Candidates(m, order, sel);
  }

  /** Position, in the round's candidate list, of the candidate the round keeps. */
  function GreedyPosition(ctx: Context, order: set<int> -> seq<int>, sel: set<int>): (p: nat)
    requires ctx.Valid() && IsIterationOrder(order) && sel <= Range(ctx.m) && |sel| < ctx.m
    ensures p < |Candidates(ctx.m, order, sel)|
  {
    var cands := Candidates(ctx.m, order, sel);
    CandidatesNonEmpty(ctx.m, order, sel);
    FirstBest(CandidateScores(ctx, sel, cands), |cands|)
  }

  /** The index one greedy round adds to `sel`. */
  function GreedyChoice(ctx: Context, order: set<int> -> seq<int>, sel: set<int>): (i: int)
    requires ctx.Valid() && IsIterationOrder(order) && sel <= Range(ctx.m) && |sel| < ctx.m
    ensures i in Range(ctx.m) && i !in sel
  {
    Candidates(ctx.m, order, sel)[GreedyPosition(ctx, order, sel)]
  }

  /** No unselected index added to `sel` gives a smaller metric than the greedy choice. */
  lemma GreedyChoiceIsMinimal(ctx: Context, order: set<int> -> seq<int>, sel: set<int>, c: int)
    requires ctx.Valid() && IsIterationOrder(order) && sel <= Range(ctx.m) && |sel| < ctx.m
    requires c in Range(ctx.m) && c !in sel
    ensures !MetricLess(ctx.Eval(sel + {c}), ctx.Eval(sel + {GreedyChoice(ctx, order, sel)}))
  {
    var cands := Candidates(ctx.m, order, sel);
    var scores := CandidateScores(ctx, sel, cands);
    CandidatesNonEmpty(ctx.m, order, sel);
    FirstBestIsFirstMinimum(scores, |scores|);
    assert c in cands;
    var q :| 0 <= q < |cands| && cands[q] == c;
    CandidateScoresAt(ctx, sel, cands, q);
    CandidateScoresAt(ctx, sel, cands, FirstBest(scores, |scores|));
  }

  /**
   * Every candidate listed before the greedy choice gives a strictly larger
   * metric: on ties the earliest candidate in iteration order is kept.
   */
  lemma GreedyChoiceIsFirst(ctx: Context, order: set<int> -> seq<int>, sel: set<int>, q: nat)
    requires ctx.Valid() && IsIterationOrder(order) && sel <= Range(ctx.m) && |sel| < ctx.m
    requires q < GreedyPosition(ctx, order, sel)
    ensures MetricLess(ctx.Eval(sel + {GreedyChoice(ctx, order, sel)}),
                       ctx.Eval(sel + {Candidates(ctx.m, order, sel)[q]}))
  {
    var cands := Candidates(ctx.m, order, sel);
    var scores := CandidateScores(ctx, sel, cands);
    CandidatesNonEmpty(ctx.m, order, sel);
    FirstBestIsFirstMinimum(scores, |scores|);
    var b := FirstBest(scores, |scores|);
    assert b == GreedyPosition(ctx, order, sel);
    assert MetricLess(scores[b], scores[q]);
    CandidateScoresAt(ctx, sel, cands, b);
    CandidateScoresAt(ctx, sel, cands, q);
  }

  /**
   * Phase 1: rounds of `GreedyChoice` until `k` indices are selected; nothing
   * happens when `sel` already has `k` or more.
   */
  function Greedy(ctx: Context, order: set<int> -> seq<int>, sel: set<int>, k: int): (r: set<int>)
    requires ctx.Valid() && IsIterationOrder(order) && sel <= Range(ctx.m) && k <= ctx.m
    ensures sel <= r <= Range(ctx.m)
    ensures |r| == if |sel| < k then k else |sel|
    decreases k - |sel|
  {
    if |sel| >= k then sel
    else
      SubsetOfRangeSize(sel, ctx.m);
      Greedy(ctx, order, sel + {GreedyChoice(ctx, order, sel)}, k)
  }

  /** After phase 1 from an empty selection, the synthesized "exactly k of all" constraint holds. */
  lemma GreedySatisfiesSynthesizedConstraint(ctx: Context, order: set<int> -> seq<int>, k: int)
    requires ctx.Valid() && IsIterationOrder(order) && 0 <= k <= ctx.m
    ensures Satisfied(FairnessConstraint(Range(ctx.m), k, k), Greedy(ctx, order, {}, k))
  {
    var r := Greedy(ctx, order, {}, k);
    assert Range(ctx.m) * r == r;
  }

  // ---------------------------------------------------------------------------
  //  The solver object
  // ---------------------------------------------------------------------------

  class MaxDivSolver {
    const vectors: Matrix
    const k: int
    const cons: seq<FairnessConstraint>
    const dist: Provider
    const owa: (seq<ExtReal>, real) -> ExtReal
    const order: set<int> -> seq<int>
    var state: SolverState

    /** The scoring context of the state: the user constraints only. */
    function Ctx(): Context
      requires |cons| >= 1
    {
      Context(cons[1..], dist.Spec(), owa, vectors.M())
    }

    /** `s` is a state of this solver: its vectors, user constraints, provider and mean, and a partition. */
    ghost predicate Fits(s: SolverState)
      reads s, s.dist.Mutables()
    {
      && s.Valid() && s.vectors == vectors && s.m == vectors.M()
      && |cons| >= 1 && s.cons == cons[1..] && s.dist == dist && s.owa == owa
      && Partitioned(s.Current(), vectors.M())
    }

    ghost predicate Valid()
      reads this, state, state.dist.Mutables()
    {
      && vectors.Valid() && 0 <= k <= vectors.M() && IsIterationOrder(order)
      && |cons| >= 1 && cons[0] == FairnessConstraint(Range(vectors.M()), k, k)
      && (forall i :: 0 <= i < |cons| ==> cons[i].Valid())
      && dist.EagerProvider? && dist.Valid() && dist.Spec().vectors == vectors
      && Fits(state)
    }

    constructor (vectors: Matrix, k: int, synthesized: FairnessConstraint, constraints: seq<FairnessConstraint>,
                 owa: (seq<ExtReal>, real) -> ExtReal, sqrt: real -> real, order: set<int> -> seq<int>)
      requires vectors.Valid() && 0 <= k <= vectors.M() && IsIterationOrder(order)
      requires synthesized == FairnessConstraint(Range(vectors.M()), k, k) && synthesized.Valid()
      requires forall i :: 0 <= i < |constraints| ==> constraints[i].Valid()
      ensures Valid() && fresh(state)
      ensures this.vectors == vectors && this.k == k && this.owa == owa && this.order == order
      ensures cons == [synthesized] + constraints
      ensures dist == EagerProvider(Eager(vectors, sqrt))
      ensures state.selected == {} && state.unselected == Range(vectors.M()) && state.scoreCache == None
    {
      this.vectors := vectors;
      this.k := k;
      this.cons := [synthesized] + constraints;
      var d := EagerProvider(Eager(vectors, sqrt));
      this.dist := d;
      this.owa := owa;
      this.order := order;
      assert ([synthesized] + constraints)[1..] == constraints;
      var st := SolverState.Build(vectors, constraints, owa, sqrt, Some(d));
      state := st;
    }

    /**
     * `MaxDivSolver(vectors, k, constraints, ...)`: rejects `k > m`, then builds
     * the synthesized constraint (which rejects `k < 0` and `m == 0`), an eager
     * L2 provider and an empty state over the user constraints. The three
     * metric arguments are accepted and not used.
     */
    static method New(vectors: Matrix, k: int, constraints: seq<FairnessConstraint>,
                      owa: (seq<ExtReal>, real) -> ExtReal, sqrt: real -> real, order: set<int> -> seq<int>,
                      distanceMetric: DistanceMetric := L2Euclidean,
                      diversityMetric: DiversityMetric := GeoMeanDist,
                      violationMetric: ConstraintViolationMetric := RelativeSquaredSum)
      returns (r: Result<MaxDivSolver, SolverError>)
      requires vectors.Valid() && IsIterationOrder(order)
      requires forall i :: 0 <= i < |constraints| ==> constraints[i].Valid()
      ensures k > vectors.M() ==> r == Failure(KExceedsCandidates)
      ensures k <= vectors.M() && SynthesizedConstraint(vectors.M(), k).Failure? ==>
        r == Failure(InvalidConstraint(SynthesizedConstraint(vectors.M(), k).error))
      ensures r.Success? <==> 0 <= k <= vectors.M() && 1 <= vectors.M()
      ensures r.Success? ==>
        && fresh(r.value) && fresh(r.value.state) && r.value.Valid()
        && r.value.k == k && r.value.cons == [FairnessConstraint(Range(vectors.M()), k, k)] + constraints
        && r.value.dist == EagerProvider(Eager(vectors, sqrt))
        && r.value.state.selected == {}
    {
      if k > vectors.M() {
        return Failure(KExceedsCandidates);
      }
      var synthesized := SynthesizedConstraint(vectors.M(), k);
      if synthesized.Failure? {
        return Failure(InvalidConstraint(synthesized.error));
      }
      var s := new MaxDivSolver(vectors, k, synthesized.value, constraints, owa, sqrt, order);
      r := Success(s);
    }

    /**
     * `solve`, with the candidates of each round read from the state's
     * unselected set: phase 1 replaces the state, round by round, by the
     * evaluated copy that adds `GreedyChoice`, until `k` indices are selected;
     * then `NotImplementedError` is raised.
     */
    method Solve() returns (err: SolverError)
      requires Valid()
      modifies this`state
      ensures Valid() && err == NotImplemented
      ensures state.selected == Greedy(Ctx(), order, old(state.selected), k)
      ensures old(|state.selected|) <= k ==> |state.selected| == k
    {
      ghost var goal := Greedy(Ctx(), order, state.selected, k);
      while state.NSelected() < k
        invariant Valid()
        invariant Greedy(Ctx(), order, state.selected, k) == goal
        decreases k - |state.selected|
      {
        ghost var sel := state.selected;
        var best := EvaluateRound();
        state := best;
        assert state.selected == sel + {GreedyChoice(Ctx(), order, sel)};
      }
      // Phase 2 is not part of the source.
      err := NotImplemented;
    }

    /**
     * One round of phase 1: every unselected index, in iteration order, is
     * added to a copy of the state and the copy is scored; the first copy with
     * a strictly smallest metric is kept. The current state is not changed.
     */
    method EvaluateRound() returns (best: SolverState)
      requires Valid() && |state.selected| < k
      ensures fresh(best) && Fits(best)
      ensures best.selected == state.selected + {GreedyChoice(Ctx(), order, state.selected)}
    {
      SubsetOfRangeSize(state.selected, vectors.M());
      assert state.unselected == Range(vectors.M()) - state.selected;
      var cands := order(state.unselected);
      CandidatesNonEmpty(vectors.M(), order, state.selected);
      best := KeepFirstBest(cands);
    }

    /** The candidate loop of a round over `cands`, which lists the unselected indices. */
    method KeepFirstBest(cands: seq<int>) returns (best: SolverState)
      requires Valid() && |state.selected| < k
      requires |cands| > 0 && forall q :: 0 <= q < |cands| ==> cands[q] in Range(vectors.M()) && cands[q] in state.unselected
      ensures fresh(best) && Fits(best)
      ensures best.selected == state.selected + {cands[FirstBest(CandidateScores(Ctx(), state.selected, cands), |cands|)]}
    {
      ghost var sel := state.selected;
      ghost var scores := CandidateScores(Ctx(), sel, cands);
      // The first pass always keeps its candidate (`best_state is None`), so it is taken out of the loop.
      var bestState, bestMetric := ConsiderCandidate(sel, cands, scores, 0, null, Metric(Inf, Inf));
      for t := 1 to |cands|
        invariant fresh(bestState) && Fits(bestState)
        invariant bestState.selected == sel + {cands[FirstBest(scores, t)]}
        invariant bestMetric == scores[FirstBest(scores, t)]
      {
        bestState, bestMetric := ConsiderCandidate(sel, cands, scores, t, bestState, bestMetric);
      }
      best := bestState;
    }

    /**
     * One pass of the candidate loop: the state with `cands[t]` added is
     * evaluated and replaces the best so far only when its metric is strictly smaller.
     */
    method ConsiderCandidate(ghost sel: set<int>, cands: seq<int>, ghost scores: seq<Metric>, t: nat,
                             bestState: SolverState?, bestMetric: Metric)
      returns (nextState: SolverState, nextMetric: Metric)
      requires Valid() && sel == state.selected && |sel| < k
      requires forall q :: 0 <= q < |cands| ==> cands[q] in Range(vectors.M()) && cands[q] in state.unselected
      requires scores == CandidateScores(Ctx(), sel, cands) && t < |cands|
      requires t == 0 <==> bestState == null
      requires bestState != null ==>
        && Fits(bestState)
        && bestState.selected == sel + {cands[FirstBest(scores, t)]}
        && bestMetric == scores[FirstBest(scores, t)]
      ensures nextState == bestState || fresh(nextState)
      ensures Fits(nextState)
      ensures nextState.selected == sel + {cands[FirstBest(scores, t + 1)]}
      ensures nextMetric == scores[FirstBest(scores, t + 1)]
    {
      var i := cands[t];
      assert i in state.unselected;
      var candidate := Evaluate(i);
      var metric := candidate.scoreCache.value;
      CandidateScoresAt(Ctx(), sel, cands, t);
      if bestState == null || MetricLess(metric, bestMetric) {
        nextMetric := metric;
        nextState := candidate;
      } else {
        nextMetric := bestMetric;
        nextState := bestState;
      }
    }

    /** The body of a round for one candidate `i`: copy the state, add `i`, score the copy. */
    method Evaluate(i: int) returns (candidate: SolverState)
      requires Valid() && i in state.unselected
      ensures fresh(candidate) && Fits(candidate)
      ensures candidate.selected == state.selected + {i}
      ensures candidate.scoreCache == Some(Ctx().Eval(state.selected + {i}))
    {
      candidate := state.Copy();
      AddOneOnPartition(candidate.Current(), vectors.M(), i);
      var e := candidate.Modify([i], []);
      var metric := candidate.Score();
    }

    /**
     * `solve` as written: the first round asks the state for `i_unselected()`,
     * which `SolverState` does not define, so any solve that still has indices
     * to add raises `AttributeError` before evaluating a candidate.
     */
    method SolveAsWritten() returns (err: SolverError)
      requires Valid()
      ensures |state.selected| < k ==> err == AttributeError
      ensures |state.selected| >= k ==> err == NotImplemented
    {
      if state.NSelected() < k {
        err := AttributeError;
        return;
      }
      err := NotImplemented;
    }
  }
}
