/**
 * Python's `sorted()` of a set of ints, `min()` of a set and `set(range(m))`,
 * with the facts about them that the solver relies on.
 */
module Sorting {

  predicate StrictlyIncreasing(s: seq<int>)
  {
    forall i, j :: 0 <= i < j < |s| ==> s[i] < s[j]
  }

  /** `set(range(m))`: the indices `0..m-1` (empty when `m <= 0`). */
  function Range(m: int): (r: set<int>)
    ensures forall x :: x in r <==> 0 <= x < m
  {
    if m <= 0 then {} else Range(m - 1) + {m - 1}
  }

  lemma {:induction false} RangeSize(m: nat)
    ensures |Range(m)| == m
  {
    if m > 0 {
      var below := Range(m - 1);
      RangeSize(m - 1);
      assert m - 1 !in below;
      assert |below + {m - 1}| == |below| + 1;
    }
  }

  lemma {:induction false} SubsetSize<T>(a: set<T>, b: set<T>)
    requires a <= b
    ensures |a| <= |b|
    ensures |b - a| == |b| - |a|
  {
    if a != {} {
      var x :| x in a;
      SubsetSize(a - {x}, b - {x});
      assert b - a == (b - {x}) - (a - {x});
    }
  }

  /** A subset of `range(m)` has at most `m` elements; a proper one leaves a gap. */
  lemma SubsetOfRangeSize(a: set<int>, m: nat)
    requires a <= Range(m)
    ensures |a| <= m
    ensures |Range(m) - a| == m - |a|
  {
    RangeSize(m);
    SubsetSize(a, Range(m));
  }

  lemma AnyElement<T>(s: set<T>) returns (z: T)
    requires s != {}
    ensures z in s
  {
    z :| z in s;
  }

  /** A least element of a non-empty set, found by removing one element at a time. */
  lemma {:induction false} LeastElement(s: set<int>) returns (x: int)
    requires s != {}
    ensures x in s && forall y :: y in s ==> x <= y
    decreases |s|
  {
    var z := AnyElement(s);
    if s == {z} {
      x := z;
    } else {
      var w := LeastElement(s - {z});
      x := if z < w then z else w;
      forall y | y in s ensures x <= y {
        if y != z { assert y in s - {z}; }
      }
    }
  }

  lemma MinimumExists(s: set<int>)
    requires s != {}
    ensures exists x :: x in s && forall y :: y in s ==> x <= y
  {
    var x := LeastElement(s);
  }

  /** `min(s)` of a non-empty set. */
  function Minimum(s: set<int>): (x: int)
    requires s != {}
    ensures x in s && forall y :: y in s ==> x <= y
  {
    MinimumExists(s);
    var x :| x in s && forall y :: y in s ==> x <= y;
    x
  }

  /** `sorted(s)`: the least element first, then the rest sorted. */
  function SortedSeq(s: set<int>): seq<int>
    decreases |s|
  {
    if s == {} then []
    else
      var x := Minimum(s);
      [x] + SortedSeq(s - {x})
  }

  /** `sorted(s)` lists exactly the elements of `s`, each once, in strictly ascending order. */
  lemma {:induction false} SortedSeqProperties(s: set<int>)
    ensures StrictlyIncreasing(SortedSeq(s))
    ensures forall x :: x in SortedSeq(s) <==> x in s
    ensures |SortedSeq(s)| == |s|
    decreases |s|
  {
    if s != {} {
      var x := Minimum(s);
      var rest := SortedSeq(s - {x});
      SortedSeqProperties(s - {x});
      var r := [x] + rest;
      assert SortedSeq(s) == r;
      forall i, j | 0 <= i < j < |r| ensures r[i] < r[j] {
        assert r[j] == rest[j - 1] && rest[j - 1] in rest;
        if i > 0 {
          assert r[i] == rest[i - 1];
        }
      }
      forall y ensures y in r <==> y in s {
        assert y in r <==> y == x || y in rest;
      }
    }
  }
}
