/**
 * Pair-wise distance providers (brtp/math/optim/discrete/max_div/_distances.py).
 *
 * A provider answers "distance between candidate vectors i and j" for the L1
 * or L2 metric. The eager provider stores every distance up front in a
 * condensed upper-triangle table and reads it through a closed-form offset;
 * the lazy provider computes a distance on first use and memoises it under the
 * canonical key `(min(i, j), max(i, j))`.
 *
 * `sqrt` is not interpreted: it is a parameter of every L2 computation.
 */
module Distances {
  import opened Enums

  // ---------------------------------------------------------------------------
  //  Vectors and the two metrics
  // ---------------------------------------------------------------------------

  /** An (M, N) matrix of finite reals: M vectors of N coordinates, one per row. */
  datatype Matrix = Matrix(rows: seq<seq<real>>, cols: nat) {
    predicate Valid()
    {
      forall r :: 0 <= r < |rows| ==> |rows[r]| == cols
    }

    function M(): nat
    {
      |rows|
    }
  }

  function Abs(x: real): real
  {
    if x < 0.0 then -x else x
  }

  /** The L1 sum `|u[0] - v[0]| + ... + |u[n-1] - v[n-1]|`. */
  function AbsDiffSum(u: seq<real>, v: seq<real>, n: nat): real
    requires n <= |u| && n <= |v|
  {
    if n == 0 then 0.0 else AbsDiffSum(u, v, n - 1) + Abs(u[n - 1] - v[n - 1])
  }

  /** The sum of squared differences, whose square root is the L2 distance. */
  function SqDiffSum(u: seq<real>, v: seq<real>, n: nat): real
    requires n <= |u| && n <= |v|
  {
    if n == 0 then 0.0 else SqDiffSum(u, v, n - 1) + (u[n - 1] - v[n - 1]) * (u[n - 1] - v[n - 1])
  }

  /** The L1 sum is non-negative, symmetric and zero between a vector and itself. */
  lemma {:induction false} AbsDiffSumProperties(u: seq<real>, v: seq<real>, n: nat)
    requires n <= |u| && n <= |v|
    ensures AbsDiffSum(u, v, n) >= 0.0
    ensures AbsDiffSum(u, v, n) == AbsDiffSum(v, u, n)
    ensures AbsDiffSum(u, u, n) == 0.0
  {
    if n > 0 {
      AbsDiffSumProperties(u, v, n - 1);
    }
  }

  /** The squared sum is non-negative, symmetric and zero between a vector and itself. */
  lemma {:induction false} SqDiffSumProperties(u: seq<real>, v: seq<real>, n: nat)
    requires n <= |u| && n <= |v|
    ensures SqDiffSum(u, v, n) >= 0.0
    ensures SqDiffSum(u, v, n) == SqDiffSum(v, u, n)
    ensures SqDiffSum(u, u, n) == 0.0
  {
    if n > 0 {
      SqDiffSumProperties(u, v, n - 1);
      var d := u[n - 1] - v[n - 1];
      assert d * d >= 0.0;
      assert (v[n - 1] - u[n - 1]) * (v[n - 1] - u[n - 1]) == d * d;
    }
  }

  /**
   * What a provider computes: the chosen metric over the rows of a matrix,
   * with the square root of the L2 metric supplied from outside.
   */
  datatype DistanceSpec = DistanceSpec(vectors: Matrix, metric: DistanceMetric, sqrt: real -> real) {
    predicate Valid()
    {
      vectors.Valid()
    }

    function M(): nat
    {
      vectors.M()
    }

    function Apply(i: int, j: int): real
      requires Valid() && 0 <= i < M() && 0 <= j < M()
    {
      match metric
      case L1Manhattan => AbsDiffSum(vectors.rows[i], vectors.rows[j], vectors.cols)
      case L2Euclidean => sqrt(SqDiffSum(vectors.rows[i], vectors.rows[j], vectors.cols))
    }
  }

  /**
   * Both metrics are symmetric; L1 is non-negative and zero on the diagonal,
   * and L2 is so as well whenever `sqrt` is non-negative with `sqrt(0) == 0`.
   */
  lemma ApplyProperties(spec: DistanceSpec, i: int, j: int)
    requires spec.Valid() && 0 <= i < spec.M() && 0 <= j < spec.M()
    ensures spec.Apply(i, j) == spec.Apply(j, i)
    ensures spec.metric.L1Manhattan? ==> spec.Apply(i, j) >= 0.0 && spec.Apply(i, i) == 0.0
    ensures spec.metric.L2Euclidean? ==> spec.Apply(i, i) == spec.sqrt(0.0)
    ensures spec.metric.L2Euclidean? && (forall x :: x >= 0.0 ==> spec.sqrt(x) >= 0.0) ==> spec.Apply(i, j) >= 0.0
  {
    var rows := spec.vectors.rows;
    AbsDiffSumProperties(rows[i], rows[j], spec.vectors.cols);
    AbsDiffSumProperties(rows[i], rows[i], spec.vectors.cols);
    SqDiffSumProperties(rows[i], rows[j], spec.vectors.cols);
    SqDiffSumProperties(rows[i], rows[i], spec.vectors.cols);
  }

  /** `_compute_distance_l1`: accumulates the absolute coordinate differences. */
  method ComputeDistanceL1(vectors: Matrix, i: int, j: int) returns (s: real)
    requires vectors.Valid() && 0 <= i < vectors.M() && 0 <= j < vectors.M()
    ensures s == AbsDiffSum(vectors.rows[i], vectors.rows[j], vectors.cols)
  {
    s := 0.0;
    for k := 0 to vectors.cols
      invariant s == AbsDiffSum(vectors.rows[i], vectors.rows[j], k)
    {
      s := s + Abs(vectors.rows[i][k] - vectors.rows[j][k]);
    }
  }

  /** `_compute_distance_l2`: accumulates the squared differences, then takes `sqrt`. */
  method ComputeDistanceL2(vectors: Matrix, i: int, j: int, sqrt: real -> real) returns (r: real)
    requires vectors.Valid() && 0 <= i < vectors.M() && 0 <= j < vectors.M()
    ensures r == sqrt(SqDiffSum(vectors.rows[i], vectors.rows[j], vectors.cols))
  {
    var s := 0.0;
    for k := 0 to vectors.cols
      invariant s == SqDiffSum(vectors.rows[i], vectors.rows[j], k)
    {
      var d := vectors.rows[i][k] - vectors.rows[j][k];
      s := s + d * d;
    }
    r := sqrt(s);
  }

  // ---------------------------------------------------------------------------
  //  The condensed upper-triangle table
  // ---------------------------------------------------------------------------

  /** Number of pairs `i < j` among `m` indices: the length of the condensed table. */
  function CondensedSize(m: int): int
  {
    m * (m - 1) / 2
  }

  /** Position of the pair `(i, j)`, `i < j`, in the condensed table of `m` vectors. */
  function Offset(m: int, i: int, j: int): int
  {
    m * i + j - ((i + 2) * (i + 1)) / 2
  }

  /** Position of the first pair of row `i`, that is of `(i, i + 1)`. */
  function RowStart(m: int, i: int): int
  {
    Offset(m, i, i + 1)
  }

  lemma CondensedSizeStep(n: int)
    ensures CondensedSize(n + 1) == CondensedSize(n) + n
  {
    assert (n + 1) * n == n * (n - 1) + 2 * n;
  }

  lemma TriangleStep(i: int)
    ensures ((i + 3) * (i + 2)) / 2 == ((i + 2) * (i + 1)) / 2 + i + 2
  {
    assert (i + 3) * (i + 2) == (i + 2) * (i + 1) + 2 * (i + 2);
  }

  /** The last pair of row `i` is immediately followed by the first pair of row `i + 1`. */
  lemma OffsetNextRow(m: int, i: int)
    ensures Offset(m, i + 1, i + 2) == Offset(m, i, m - 1) + 1
  {
    TriangleStep(i);
    assert m * (i + 1) == m * i + m;
  }

  /** Row `i` starts after all pairs of rows `0..i-1`: `RowStart(i) == CondensedSize(m) - CondensedSize(m - i)`. */
  lemma {:induction false} RowStartClosedForm(m: int, i: nat)
    requires i <= m
    ensures RowStart(m, i) + CondensedSize(m - i) == CondensedSize(m)
  {
    if i == 0 {
      assert RowStart(m, 0) == 0;
    } else {
      RowStartClosedForm(m, i - 1);
      OffsetNextRow(m, i - 1);
      CondensedSizeStep(m - i);
    }
  }

  lemma {:induction false} CondensedSizeMonotone(a: nat, b: nat)
    requires a <= b
    ensures 0 <= CondensedSize(a) <= CondensedSize(b)
    decreases b - a
  {
    if a < b {
      CondensedSizeMonotone(a, b - 1);
      CondensedSizeStep(b - 1);
    } else {
      assert a * (a - 1) >= 0 by {
        if a > 0 { assert a - 1 >= 0; }
      }
    }
  }

  /** Pairs are numbered in row-major order, so the offset increases lexicographically. */
  lemma OffsetLexMonotone(m: int, i: int, j: int, i': int, j': int)
    requires 0 <= i < j < m && 0 <= i' < j' < m
    requires i < i' || (i == i' && j < j')
    ensures Offset(m, i, j) < Offset(m, i', j')
  {
    if i < i' {
      // Offset(i, j) <= Offset(i, m - 1) < RowStart(i + 1) <= RowStart(i') <= Offset(i', j')
      OffsetNextRow(m, i);
      RowStartClosedForm(m, i + 1);
      RowStartClosedForm(m, i');
      CondensedSizeMonotone(m - i', m - (i + 1));
    }
  }

  /** For `0 <= i < j < m` the offset is a valid position of the condensed table. */
  lemma OffsetInRange(m: int, i: int, j: int)
    requires 0 <= i < j < m
    ensures 0 <= Offset(m, i, j) < CondensedSize(m)
  {
    RowStartClosedForm(m, i);
    RowStartClosedForm(m, i + 1);
    OffsetNextRow(m, i);
    CondensedSizeMonotone(m - i - 1, m);
    CondensedSizeMonotone(m - i, m);
    CondensedSizeMonotone(0, m - i - 1);
  }

  /** Distinct pairs occupy distinct positions. */
  lemma OffsetInjective(m: int, i: int, j: int, i': int, j': int)
    requires 0 <= i < j < m && 0 <= i' < j' < m
    requires Offset(m, i, j) == Offset(m, i', j')
    ensures i == i' && j == j'
  {
    if i < i' || (i == i' && j < j') {
      OffsetLexMonotone(m, i, j, i', j');
    } else if i' < i || (i == i' && j' < j) {
      OffsetLexMonotone(m, i', j', i, j);
    }
  }

  /** The distances of row `i`: pairs `(i, i + 1), ..., (i, m - 1)`. */
  function Row(spec: DistanceSpec, i: int): (r: seq<real>)
    requires spec.Valid() && 0 <= i < spec.M()
    ensures |r| == spec.M() - 1 - i
    ensures forall t :: 0 <= t < |r| ==> r[t] == spec.Apply(i, i + 1 + t)
  {
    seq(spec.M() - 1 - i, t requires 0 <= t < spec.M() - 1 - i => spec.Apply(i, i + 1 + t))
  }

  /** Rows `i..m-1` of the condensed table, concatenated. */
  function RowsFrom(spec: DistanceSpec, i: int): seq<real>
    requires spec.Valid() && 0 <= i <= spec.M()
    decreases spec.M() - i
  {
    if i == spec.M() then [] else Row(spec, i) + RowsFrom(spec, i + 1)
  }

  /**
   * The condensed distance table the eager provider is built from (what
   * `scipy.spatial.distance.pdist` returns): the upper triangle of the
   * distance matrix, row by row.
   */
  function CondensedTable(spec: DistanceSpec): seq<real>
    requires spec.Valid()
  {
    RowsFrom(spec, 0)
  }

  lemma {:induction false} RowsFromLength(spec: DistanceSpec, i: int)
    requires spec.Valid() && 0 <= i <= spec.M()
    ensures |RowsFrom(spec, i)| == CondensedSize(spec.M() - i)
    decreases spec.M() - i
  {
    if i < spec.M() {
      RowsFromLength(spec, i + 1);
      CondensedSizeStep(spec.M() - i - 1);
    }
  }

  lemma {:induction false} RowsFromAt(spec: DistanceSpec, i: int, a: int, b: int)
    requires spec.Valid() && 0 <= i <= a < b < spec.M()
    ensures 0 <= Offset(spec.M(), a, b) - RowStart(spec.M(), i) < |RowsFrom(spec, i)|
    ensures RowsFrom(spec, i)[Offset(spec.M(), a, b) - RowStart(spec.M(), i)] == spec.Apply(a, b)
    decreases a - i
  {
    var m := spec.M();
    RowsFromLength(spec, i);
    RowStartClosedForm(m, i);
    OffsetInRange(m, a, b);
    if a == i {
      assert Offset(m, a, b) - RowStart(m, i) == b - i - 1;
    } else {
      RowsFromAt(spec, i + 1, a, b);
      OffsetNextRow(m, i);
      assert RowStart(m, i + 1) - RowStart(m, i) == |Row(spec, i)|;
    }
  }

  /** Which tables an eager provider may hold: entry `Offset(m, i, j)` is the distance of `(i, j)`. */
  ghost predicate Condensed(spec: DistanceSpec, table: seq<real>)
    requires spec.Valid()
  {
    && |table| == CondensedSize(spec.M())
    && forall i, j :: 0 <= i < j < spec.M() ==>
         0 <= Offset(spec.M(), i, j) < |table| && table[Offset(spec.M(), i, j)] == spec.Apply(i, j)
  }

  lemma CondensedTableIsCondensed(spec: DistanceSpec)
    requires spec.Valid()
    ensures Condensed(spec, CondensedTable(spec))
  {
    RowsFromLength(spec, 0);
    forall i, j | 0 <= i < j < spec.M()
      ensures 0 <= Offset(spec.M(), i, j) < |CondensedTable(spec)|
      ensures CondensedTable(spec)[Offset(spec.M(), i, j)] == spec.Apply(i, j)
    {
      RowsFromAt(spec, 0, i, j);
    }
  }

  // ---------------------------------------------------------------------------
  //  Eager provider
  // ---------------------------------------------------------------------------

  /** `PairWiseDistances_Eager`: the vectors, the metric, the condensed table and `m`. */
  datatype EagerDistances = EagerDistances(spec: DistanceSpec, m: nat, table: seq<real>) {
    ghost predicate Valid()
    {
      spec.Valid() && m == spec.M() && Condensed(spec, table)
    }

    /** `__call__`: zero on the diagonal without a lookup, otherwise the table entry of the canonical pair. */
    function Call(i: int, j: int): (r: real)
      requires Valid() && 0 <= i < m && 0 <= j < m
      ensures i == j ==> r == 0.0
      ensures i != j ==> r == spec.Apply(i, j) && r == spec.Apply(j, i)
    {
      if i == j then 0.0
      else
        var (a, b) := (if i < j then i else j, if i < j then j else i);
        ApplyProperties(spec, i, j);
        table[Offset(m, a, b)]
    }
  }

  /** `PairWiseDistances.eager`: builds the condensed table of all pairs for the metric (L2 by default). */
  function Eager(vectors: Matrix, sqrt: real -> real, metric: DistanceMetric := L2Euclidean): (e: EagerDistances)
    requires vectors.Valid()
    ensures e.Valid()
    ensures e.spec == DistanceSpec(vectors, metric, sqrt)
  {
    var spec := DistanceSpec(vectors, metric, sqrt);
    CondensedTableIsCondensed(spec);
    EagerDistances(spec, vectors.M(), CondensedTable(spec))
  }

  /**
   * The eager provider returns the metric's value for every pair: off the
   * diagonal always, on it when the metric itself is zero there (always for
   * L1, for L2 when `sqrt(0) == 0`).
   */
  lemma EagerMatchesMetric(e: EagerDistances, i: int, j: int)
    requires e.Valid() && 0 <= i < e.m && 0 <= j < e.m
    requires i != j || e.spec.metric.L1Manhattan? || e.spec.sqrt(0.0) == 0.0
    ensures e.Call(i, j) == e.spec.Apply(i, j)
    ensures e.Call(i, j) == e.Call(j, i)
  {
    ApplyProperties(e.spec, i, j);
  }

  // ---------------------------------------------------------------------------
  //  Lazy provider
  // ---------------------------------------------------------------------------

  /** `PairWiseDistances_Lazy`: computes distances on demand and memoises them. */
  class LazyDistances {
    const spec: DistanceSpec
    var cache: map<(int, int), real>

    /** Every memoised entry is the distance of its canonical pair. */
    ghost predicate Valid()
      reads this
    {
      && spec.Valid()
      && forall key :: key in cache ==>
           0 <= key.0 <= key.1 < spec.M() && cache[key] == spec.Apply(key.0, key.1)
    }

    constructor (vectors: Matrix, metric: DistanceMetric, sqrt: real -> real)
      requires vectors.Valid()
      ensures Valid()
      ensures spec == DistanceSpec(vectors, metric, sqrt) && cache == map[]
    {
      spec := DistanceSpec(vectors, metric, sqrt);
      cache := map[];
    }

    /**
     * `__call__`: canonicalise the pair; on a hit return the stored value,
     * on a miss compute it with the metric's helper, store it and return it.
     */
    method Call(i: int, j: int) returns (r: real)
      requires Valid() && 0 <= i < spec.M() && 0 <= j < spec.M()
      modifies this
      ensures Valid()
      ensures r == spec.Apply(i, j)
      ensures var key := (if i < j then i else j, if i < j then j else i);
        if key in old(cache) then r == old(cache)[key] && cache == old(cache)
        else cache == old(cache)[key := r]
    {
      var a, b := if i < j then i else j, if i < j then j else i;
      ApplyProperties(spec, i, j);
      if (a, b) in cache {
        r := cache[(a, b)];
      } else {
        match spec.metric {
          case L1Manhattan =>
            r := ComputeDistanceL1(spec.vectors, a, b);
          case L2Euclidean =>
            r := ComputeDistanceL2(spec.vectors, a, b, spec.sqrt);
        }
        cache := cache[(a, b) := r];
      }
    }
  }

  /** `PairWiseDistances.lazy`: a lazy provider with an empty memo (L2 by default). */
  method Lazy(vectors: Matrix, sqrt: real -> real, metric: DistanceMetric := L2Euclidean) returns (l: LazyDistances)
    requires vectors.Valid()
    ensures fresh(l) && l.Valid()
    ensures l.spec == DistanceSpec(vectors, metric, sqrt) && l.cache == map[]
  {
    l := new LazyDistances(vectors, metric, sqrt);
  }

  // ---------------------------------------------------------------------------
  //  Either provider
  // ---------------------------------------------------------------------------

  /** A `PairWiseDistances` object: one of the two implementations. */
  datatype Provider = EagerProvider(eager: EagerDistances) | LazyProvider(lazy: LazyDistances) {
    function Spec(): DistanceSpec
    {
      match this
      case EagerProvider(e) => e.spec
      case LazyProvider(l) => l.spec
    }

    /** The objects a lookup may update: the lazy provider's memo. */
    function Mutables(): set<object>
    {
      match this
      case EagerProvider(_) => {}
      case LazyProvider(l) => {l}
    }

    ghost predicate Valid()
      reads Mutables()
    {
      match this
      case EagerProvider(e) => e.Valid()
      case LazyProvider(l) => l.Valid()
    }
  }

  /** `dist(i, j)` on either provider: the metric's value for every pair of distinct indices. */
  method Distance(p: Provider, i: int, j: int) returns (d: real)
    requires p.Valid() && 0 <= i < p.Spec().M() && 0 <= j < p.Spec().M()
    modifies p.Mutables()
    ensures p.Valid()
    ensures i != j ==> d == p.Spec().Apply(i, j)
  {
    match p {
      case EagerProvider(e) =>
        d := e.Call(i, j);
      case LazyProvider(l) =>
        d := l.Call(i, j);
    }
  }

  /**
   * Both providers, asked the same pair twice, answer with the metric's value
   * every time (the repeated queries of the distance tests).
   */
  method ProvidersAgree(e: EagerDistances, l: LazyDistances, i: int, j: int) returns (first: real, second: real)
    requires e.Valid() && l.Valid() && e.spec == l.spec
    requires 0 <= i < e.m && 0 <= j < e.m
    requires i != j || e.spec.metric.L1Manhattan? || e.spec.sqrt(0.0) == 0.0
    modifies l
    ensures first == e.Call(i, j) && second == e.Call(i, j)
  {
    EagerMatchesMetric(e, i, j);
    first := l.Call(i, j);
    second := l.Call(i, j);
  }
}
