/**
 * The None-counting argument helpers (brtp/misc/argument_handling/_checks.py).
 * Each variadic Python function takes its positional arguments as a sequence;
 * an argument is `None` or a present value, whatever that value is.
 */
module Checks {
  import opened Wrappers

  /** True when every argument is None (vacuously true for no arguments). */
  predicate AllAreNone<T>(args: seq<Option<T>>)
  {
    forall i :: 0 <= i < |args| ==> args[i].None?
  }

  /** True when no argument is None (vacuously true for no arguments). */
  predicate AllAreNotNone<T>(args: seq<Option<T>>)
  {
    forall i :: 0 <= i < |args| ==> args[i].Some?
  }

  /** Number of None arguments. */
  function CountNone<T>(args: seq<Option<T>>): (r: nat)
    ensures r <= |args|
  {
    if args == [] then 0 else (if args[0].None? then 1 else 0) + CountNone(args[1..])
  }

  /** Number of arguments that are not None. */
  function CountNotNone<T>(args: seq<Option<T>>): (r: nat)
    ensures r <= |args|
  {
    if args == [] then 0 else (if args[0].Some? then 1 else 0) + CountNotNone(args[1..])
  }

  /** Every argument is counted exactly once, by one of the two counters. */
  lemma {:induction false} CountsPartition<T>(args: seq<Option<T>>)
    ensures CountNone(args) + CountNotNone(args) == |args|
  {
    if args != [] {
      CountsPartition(args[1..]);
    }
  }

  /** `all_are_none` holds exactly when nothing is counted as present. */
  lemma {:induction false} AllAreNoneIffNoneCounted<T>(args: seq<Option<T>>)
    ensures AllAreNone(args) <==> CountNotNone(args) == 0
  {
    if args != [] {
      AllAreNoneIffNoneCounted(args[1..]);
      assert AllAreNone(args) <==> args[0].None? && AllAreNone(args[1..]) by {
        if AllAreNone(args) {
          forall i | 0 <= i < |args[1..]| ensures args[1..][i].None? {
            assert args[1..][i] == args[i + 1];
          }
        }
        if args[0].None? && AllAreNone(args[1..]) {
          forall i | 0 <= i < |args| ensures args[i].None? {
            if i > 0 { assert args[i] == args[1..][i - 1]; }
          }
        }
      }
    }
  }

  /** `all_are_not_none` holds exactly when no None is counted. */
  lemma {:induction false} AllAreNotNoneIffNoNoneCounted<T>(args: seq<Option<T>>)
    ensures AllAreNotNone(args) <==> CountNone(args) == 0
  {
    if args != [] {
      AllAreNotNoneIffNoNoneCounted(args[1..]);
      assert AllAreNotNone(args) <==> args[0].Some? && AllAreNotNone(args[1..]) by {
        if AllAreNotNone(args) {
          forall i | 0 <= i < |args[1..]| ensures args[1..][i].Some? {
            assert args[1..][i] == args[i + 1];
          }
        }
        if args[0].Some? && AllAreNotNone(args[1..]) {
          forall i | 0 <= i < |args| ensures args[i].Some? {
            if i > 0 { assert args[i] == args[1..][i - 1]; }
          }
        }
      }
    }
  }

  /**
   * Falsy values are still present values: with `0` and the empty string
   * among the arguments, only the real None values are counted as None.
   */
  lemma FalsyValuesAreNotNone()
    ensures CountNone([None, Some(0), None]) == 2
    ensures CountNotNone([None, Some(0), None]) == 1
    ensures AllAreNotNone([Some(""), Some("")])
    ensures !AllAreNone([None, Some(0), None])
  {
    assert [None, Some(0), None][1..] == [Some(0), None];
    assert [Some(0), None][1..] == [None];
    assert [None, Some(0), None][1].Some?;
  }
}
