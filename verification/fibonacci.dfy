/**
 * `fibonacci(n)` of fibonacci.py: the list of the first `n` Fibonacci
 * numbers, built from `[0, 1]` by appending the sum of the last two, then
 * cut with Python's slice `[:n]` (which also gives the results for a
 * negative `n`).
 */
module Fibonacci {
  /** The Fibonacci numbers: F(0) = 0, F(1) = 1, F(i) = F(i - 1) + F(i - 2). */
  function Fib(i: nat): nat {
    if i < 2 then i else Fib(i - 1) + Fib(i - 2)
  }

  /**
   * Python's `s[:n]`: the first `n` items; a negative `n` counts from the
   * end, and a bound past either end is clamped.
   */
  function SlicePrefix<T>(s: seq<T>, n: int): (r: seq<T>)
    ensures |r| <= |s| && r == s[..|r|]
    ensures 0 <= n <= |s| ==> |r| == n
    ensures n > |s| ==> |r| == |s|
    ensures n < 0 ==> |r| == if |s| + n >= 0 then |s| + n else 0
  {
    if n >= 0 then (if n <= |s| then s[..n] else s)
    else if |s| + n >= 0 then s[..|s| + n]
    else []
  }

  /** The length of `fibonacci(n)`: `n` when it is not negative, and Python's slice of `[0, 1]` otherwise. */
  function ResultLength(n: int): nat {
    if n >= 0 then n else if n == -1 then 1 else 0
  }

  /**
   * `fibonacci(n)`: the result has `n` entries for a non-negative `n`
   * (`[0]` for -1, `[]` below), entry `i` is F(i), so it starts 0, 1 and
   * each later entry is the sum of the two before it.
   */
  method Fibonacci(n: int) returns (r: seq<int>)
    ensures |r| == ResultLength(n)
    ensures forall i :: 0 <= i < |r| ==> r[i] == Fib(i)
    ensures forall i :: 2 <= i < |r| ==> r[i] == r[i - 1] + r[i - 2]
    ensures 0 <= n <= 2 ==> r == [0, 1][..n]
  {
    var sequence := [0, 1];
    var i := 2;
    while i < n
      invariant 2 <= i && |sequence| == i
      invariant i <= n || i == 2
      invariant forall k :: 0 <= k < i ==> sequence[k] == Fib(k)
    {
      sequence := sequence + [sequence[i - 1] + sequence[i - 2]];
      i := i + 1;
    }
    r := SlicePrefix(sequence, n);
  }

  /**
   * Two results of `fibonacci` are prefixes of each other: the list for `m`
   * is the first `m` entries of the list for any `n >= m`.
   */
  lemma FibonacciPrefix(m: int, n: int, rm: seq<int>, rn: seq<int>)
    requires 0 <= m <= n
    requires |rm| == ResultLength(m) && forall i :: 0 <= i < |rm| ==> rm[i] == Fib(i)
    requires |rn| == ResultLength(n) && forall i :: 0 <= i < |rn| ==> rn[i] == Fib(i)
    ensures rm == rn[..m]
  {
  }

  /**
   * The list `fibonacci` returns never decreases, and from entry 3 on each
   * entry is larger than the one before it.
   */
  lemma ResultNonDecreasing(r: seq<int>)
    requires forall i :: 0 <= i < |r| ==> r[i] == Fib(i)
    ensures forall i :: 0 < i < |r| ==> r[i - 1] <= r[i]
    ensures forall i :: 2 < i < |r| ==> r[i - 1] < r[i]
  {
    forall i | 0 < i < |r| ensures r[i - 1] <= r[i] && (i > 2 ==> r[i - 1] < r[i]) {
      FibGrows(i - 1);
    }
  }

  /** The Fibonacci numbers never decrease, and grow from F(2) on. */
  lemma {:induction false} FibGrows(i: nat)
    ensures Fib(i) <= Fib(i + 1)
    ensures i >= 2 ==> Fib(i) < Fib(i + 1)
  {
    if i >= 2 {
      FibGrows(i - 1);
    }
  }
}
