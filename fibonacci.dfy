/**
 * The Fibonacci numbers used by the search, with the solver's convention
 * F(0) = F(1) = 1, and the loop that builds the table of them up to the first
 * entry that exceeds a bound.
 */
module Fibonacci {

  /** F(0) = F(1) = 1, F(i) = F(i - 1) + F(i - 2). Every entry is positive and at least its index. */
  function Fib(i: nat): (r: nat)
    ensures 1 <= r && i <= r
  {
    if i < 2 then 1 else Fib(i - 1) + Fib(i - 2)
  }

  /** Fib is non-decreasing. */
  lemma {:induction false} FibMonotone(i: nat, j: nat)
    requires i <= j
    ensures Fib(i) <= Fib(j)
    decreases j - i
  {
    if i < j {
      FibMonotone(i, j - 1);
    }
  }

  /** From index 1 on, Fib is strictly increasing. */
  lemma {:induction false} FibStrictlyIncreasing(i: nat, j: nat)
    requires 1 <= i < j
    ensures Fib(i) < Fib(j)
    decreases j - i
  {
    if i + 1 < j {
      FibStrictlyIncreasing(i, j - 1);
    }
  }

  /** `s` is the first |s| Fibonacci numbers. */
  ghost predicate IsFibTable(s: seq<nat>)
  {
    forall i | 0 <= i < |s| :: s[i] == Fib(i)
  }

  /**
   * n is where the table stops for `bound`: the least index from 1 on whose
   * Fibonacci number exceeds `bound`.
   */
  ghost predicate IsTableSize(n: nat, bound: real)
  {
    && 1 <= n
    && Fib(n) as real > bound
    && forall i | 1 <= i < n :: Fib(i) as real <= bound
  }

  /**
   * Starts from [1, 1] and appends the sum of the last two entries while the
   * last entry is at most `bound`.
   */
  method BuildTable(bound: real) returns (fibs: seq<nat>)
    ensures 2 <= |fibs| && IsFibTable(fibs)
    ensures IsTableSize(|fibs| - 1, bound)
  {
    fibs := [1, 1];
    while fibs[|fibs| - 1] as real <= bound
      invariant 2 <= |fibs| && IsFibTable(fibs)
      invariant forall i | 1 <= i < |fibs| - 1 :: Fib(i) as real <= bound
      decreases bound.Floor + 1 - fibs[|fibs| - 1]
    {
      fibs := fibs + [fibs[|fibs| - 1] + fibs[|fibs| - 2]];
    }
  }

  /** The table stops at n = 1, leaving only [1, 1], exactly when the bound is below 1. */
  lemma SingleEntryTable(n: nat, bound: real)
    requires IsTableSize(n, bound)
    ensures n == 1 <==> bound < 1.0
  {
    if n != 1 {
      assert Fib(1) as real <= bound;
    }
  }

  /** There is exactly one table size for a bound. */
  lemma TableSizeUnique(n: nat, n': nat, bound: real)
    requires IsTableSize(n, bound) && IsTableSize(n', bound)
    ensures n == n'
  {
  }
}
