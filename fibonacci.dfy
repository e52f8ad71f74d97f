/** The Fibonacci series printer: `fib(n)` prints the Fibonacci numbers
    1, 1, 2, 3, 5, ... that are below `n`. The printed numbers are returned
    as a sequence, in the order they are printed. */
module Fibonacci {

  /** The Fibonacci numbers, with Fib(0) == 0 and Fib(1) == 1. */
  function Fib(k: nat): nat {
    if k < 2 then k else Fib(k - 2) + Fib(k - 1)
  }

  /** Every Fibonacci number after the zeroth is at least 1, so the loop's
      `b`, which is Fib(k + 1), is never 0. */
  lemma {:induction false} FibPositive(k: nat)
    requires k >= 1
    ensures Fib(k) >= 1
  {
    if k > 2 {
      FibPositive(k - 1);
    }
  }

  /** The series never decreases. */
  lemma {:induction false} FibMonotone(i: nat, j: nat)
    requires i <= j
    ensures Fib(i) <= Fib(j)
  {
    if i < j {
      FibMonotone(i, j - 1);
      if j >= 2 {
        assert Fib(j) == Fib(j - 2) + Fib(j - 1);
      }
    }
  }

  /** `s` is the Fibonacci series below `n`: Fib(1), Fib(2), ... in order
      with none skipped, every one below `n`, and the next one at least `n`. */
  predicate IsSeriesBelow(n: int, s: seq<nat>) {
    (forall i :: 0 <= i < |s| ==> s[i] == Fib(i + 1)) &&
    (forall i :: 0 <= i < |s| ==> s[i] < n) &&
    Fib(|s| + 1) >= n
  }

  /** A series below `n` is at least as long as any other. */
  lemma SeriesBelowNoLonger(n: int, s: seq<nat>, t: seq<nat>)
    requires IsSeriesBelow(n, s) && IsSeriesBelow(n, t)
    ensures |t| <= |s|
  {
    var k := if |s| < |t| then |s| else 0;
    assert |t| > 0 ==> t[k] == Fib(k + 1) && t[k] < n;
  }

  /** There is only one series below `n`, so it is the longest prefix of
      the Fibonacci numbers (from Fib(1)) whose members are all below `n`. */
  lemma SeriesBelowUnique(n: int, s: seq<nat>, t: seq<nat>)
    requires IsSeriesBelow(n, s) && IsSeriesBelow(n, t)
    ensures s == t
  {
    SeriesBelowNoLonger(n, s, t);
    SeriesBelowNoLonger(n, t, s);
  }

  /** `fib(n)`: what is printed is the series below `n`, which never
      decreases and is empty when `n` is at most 1. */
  method PrintFib(n: int) returns (out: seq<nat>)
    ensures IsSeriesBelow(n, out)
    ensures forall i, j :: 0 <= i <= j < |out| ==> out[i] <= out[j]
    ensures n <= 1 ==> out == []
  {
    var a, b := 0, 1;
    ghost var k: nat := 0;
    out := [];
    while b < n
      invariant a == Fib(k) && b == Fib(k + 1)
      invariant 0 <= a <= b && 1 <= b
      invariant |out| == k
      invariant forall i :: 0 <= i < k ==> out[i] == Fib(i + 1)
      invariant forall i :: 0 <= i < k ==> out[i] < n
      decreases 2 * n - (a + b)
    {
      out := out + [b];
      a, b := b, a + b;
      k := k + 1;
    }
    assert |out| > 0 ==> out[0] == Fib(1) == 1;
    forall i, j | 0 <= i <= j < |out|
      ensures out[i] <= out[j]
    {
      FibMonotone(i + 1, j + 1);
    }
  }
}
