/** The wondrous (Collatz) sequence printer: starting from `start`, halve an
    even term and replace an odd one by three times it plus one, printing
    every term, until the term is no longer greater than 1.

    Whether that loop stops for every positive start is the Collatz
    conjecture, so the model bounds the number of steps by a `fuel`
    argument and proves what holds of every run: the terms printed form a
    trace of the rule, the count is the number of terms, and a run that
    stops has stopped for the reason the loop guard gives. */
module Wondrous {

  datatype Option<T> = None | Some(value: T)

  /** `isEven`: Python's `num % 2` is floor modulo, which for the positive
      divisor 2 is 0 or 1 for every integer, exactly Dafny's `%`. */
  predicate IsEven(num: int) {
    num % 2 == 0
  }

  /** Parity alternates between neighbours. */
  lemma IsEvenAlternates(num: int)
    ensures IsEven(num) != IsEven(num + 1)
  {
  }

  /** Every double is even, and an even number is the double of its half. */
  lemma IsEvenDouble(k: int)
    ensures IsEven(2 * k)
    ensures IsEven(k) ==> 2 * (k / 2) == k
  {
  }

  /** One step of the rule; the source does `term / 2` only for a term
      greater than 1, where Python's floor division is Dafny's `/`. */
  function Next(term: int): (next: int)
    ensures IsEven(term) ==> 2 * next == term
    ensures !IsEven(term) ==> IsEven(next)
    ensures term >= 1 ==> next >= 1
    ensures term > 1 && IsEven(term) ==> next < term
  {
    if IsEven(term) then term / 2 else term * 3 + 1
  }

  /** `Next` applied `k` times. */
  function Iterate(n: int, k: nat): int {
    if k == 0 then n else Next(Iterate(n, k - 1))
  }

  /** Each term but the last passed the loop guard (it is greater than 1)
      and is followed by its successor under the rule. */
  predicate Steps(s: seq<int>) {
    forall i :: 0 <= i < |s| - 1 ==> s[i] > 1 && s[i + 1] == Next(s[i])
  }

  /** `s` is everything a finished run from `start` prints: `start` first,
      one rule step per further term, and a last term that fails the
      guard. */
  predicate IsTrace(start: int, s: seq<int>) {
    |s| >= 1 && s[0] == start && Steps(s) && s[|s| - 1] <= 1
  }

  /** A stepping sequence is the orbit of its first term under `Next`. */
  lemma {:induction false} StepsFollowIterate(s: seq<int>, i: nat)
    requires Steps(s)
    requires i < |s|
    ensures s[i] == Iterate(s[0], i)
  {
    if i > 0 {
      StepsFollowIterate(s, i - 1);
    }
  }

  /** A positive start never leaves the positive integers. */
  lemma {:induction false} IteratePositive(n: int, k: nat)
    requires n >= 1
    ensures Iterate(n, k) >= 1
  {
    if k > 0 {
      IteratePositive(n, k - 1);
    }
  }

  /** The run is deterministic: a start has at most one finished trace, so
      two calls with the same start print the same terms and count. */
  lemma TraceUnique(start: int, s: seq<int>, t: seq<int>)
    requires IsTrace(start, s) && IsTrace(start, t)
    ensures s == t
  {
    if |s| < |t| {
      StepsFollowIterate(s, |s| - 1);
      StepsFollowIterate(t, |s| - 1);
      assert false;
    } else if |t| < |s| {
      StepsFollowIterate(s, |t| - 1);
      StepsFollowIterate(t, |t| - 1);
      assert false;
    }
    forall i | 0 <= i < |s|
      ensures s[i] == t[i]
    {
      StepsFollowIterate(s, i);
      StepsFollowIterate(t, i);
    }
  }

  /** From a positive start every printed term is positive, so a finished
      trace ends exactly at 1. */
  lemma TraceEndsAtOne(start: int, s: seq<int>)
    requires start >= 1
    requires IsTrace(start, s)
    ensures forall i :: 0 <= i < |s| ==> s[i] >= 1
    ensures s[|s| - 1] == 1
  {
    forall i | 0 <= i < |s|
      ensures s[i] >= 1
    {
      StepsFollowIterate(s, i);
      IteratePositive(start, i);
    }
  }

  /** Reference definition: the trace from `start` when it finishes within
      `fuel` rule steps, `None` when the guard still holds after them. */
  function Wondrous(start: int, fuel: nat): (r: Option<seq<int>>)
    ensures r.Some? ==> IsTrace(start, r.value) && |r.value| <= fuel + 1
    decreases fuel
  {
    if start <= 1 then Some([start])
    else if fuel == 0 then None
    else match Wondrous(Next(start), fuel - 1)
      case None => None
      case Some(rest) => Some([start] + rest)
  }

  /** `Wondrous` finds every trace that fits in its fuel. */
  lemma {:induction false} WondrousFinds(start: int, s: seq<int>, fuel: nat)
    requires IsTrace(start, s)
    requires |s| <= fuel + 1
    ensures Wondrous(start, fuel) == Some(s)
    decreases fuel
  {
    assert |s| > 1 ==> s[0] > 1;
    if start > 1 {
      var rest := s[1..];
      forall i | 0 <= i < |rest| - 1
        ensures rest[i] > 1 && rest[i + 1] == Next(rest[i])
      {
        assert rest[i] == s[i + 1] && rest[i + 1] == s[i + 2];
      }
      assert rest[0] == Next(start) && rest[|rest| - 1] == s[|s| - 1];
      assert IsTrace(Next(start), rest);
      WondrousFinds(Next(start), rest, fuel - 1);
      assert s == [start] + rest;
    } else {
      assert s == [start];
    }
  }

  /** A run that is still above 1 after `fuel` steps means `Wondrous`
      finds no trace within that fuel. */
  lemma WondrousExhausted(start: int, s: seq<int>, fuel: nat)
    requires |s| == fuel + 1 && s[0] == start
    requires Steps(s)
    requires s[|s| - 1] > 1
    ensures Wondrous(start, fuel) == None
  {
    if Wondrous(start, fuel).Some? {
      var t := Wondrous(start, fuel).value;
      StepsFollowIterate(s, |t| - 1);
      StepsFollowIterate(t, |t| - 1);
      assert false;
    }
  }

  /** `printWondrous`: returns the printed terms, the count of terms, and
      whether the loop guard failed within `fuel` steps. */
  method PrintWondrous(start: int, fuel: nat) returns (out: seq<int>, numTerms: int, finished: bool)
    ensures |out| >= 1 && out[0] == start
    ensures numTerms == |out|
    ensures Steps(out)
    ensures finished <==> out[|out| - 1] <= 1
    ensures finished ==> IsTrace(start, out) && Wondrous(start, fuel) == Some(out)
    ensures !finished ==> |out| == fuel + 1 && Wondrous(start, fuel) == None
    ensures start <= 1 ==> finished && out == [start] && numTerms == 1
    ensures finished && start >= 1 ==> out[|out| - 1] == 1
  {
    numTerms := 1;
    var term := start;
    out := [term];
    var remaining := fuel;
    while term > 1 && remaining > 0
      invariant |out| >= 1 && out[0] == start && out[|out| - 1] == term
      invariant numTerms == |out| == fuel - remaining + 1
      invariant Steps(out)
      decreases remaining
    {
      if IsEven(term) {
        term := term / 2;
      } else {
        term := term * 3 + 1;
      }
      out := out + [term];
      numTerms := numTerms + 1;
      remaining := remaining - 1;
    }
    finished := term <= 1;
    if finished {
      WondrousFinds(start, out, fuel);
      if start >= 1 {
        TraceEndsAtOne(start, out);
      }
    } else {
      WondrousExhausted(start, out, fuel);
    }
  }

  /** A start of 1 prints just 1 and counts one term. */
  lemma WondrousOfOne()
    ensures Wondrous(1, 0) == Some([1])
  {
  }

  /** Prefixing a term above 1 to a trace of its successor gives a trace. */
  lemma TracePrepend(start: int, s: seq<int>)
    requires start > 1 && IsTrace(Next(start), s)
    ensures IsTrace(start, [start] + s)
  {
    var t := [start] + s;
    forall i | 0 <= i < |t| - 1
      ensures t[i] > 1 && t[i + 1] == Next(t[i])
    {
      if i > 0 {
        assert t[i] == s[i - 1] && t[i + 1] == s[i];
      }
    }
  }

  /** The trace from 10, which the runs from 6 and from 7 share. */
  lemma TraceFromTen()
    ensures IsTrace(10, [10, 5, 16, 8, 4, 2, 1])
  {
    var t := [1];
    TracePrepend(2, t); t := [2] + t;
    TracePrepend(4, t); t := [4] + t;
    TracePrepend(8, t); t := [8] + t;
    TracePrepend(16, t); t := [16] + t;
    TracePrepend(5, t); t := [5] + t;
    TracePrepend(10, t);
  }

  /** From 6 the run prints 6, 3, 10, 5, 16, 8, 4, 2, 1: nine terms. */
  lemma WondrousOfSix()
    ensures Wondrous(6, 8) == Some([6, 3, 10, 5, 16, 8, 4, 2, 1])
  {
    var t := [10, 5, 16, 8, 4, 2, 1];
    TraceFromTen();
    TracePrepend(3, t); t := [3] + t;
    TracePrepend(6, t); t := [6] + t;
    assert t == [6, 3, 10, 5, 16, 8, 4, 2, 1];
    WondrousFinds(6, t, 8);
  }

  /** From 7 the run prints seventeen terms. */
  lemma WondrousOfSeven()
    ensures Wondrous(7, 16).Some? && |Wondrous(7, 16).value| == 17
  {
    var t := [10, 5, 16, 8, 4, 2, 1];
    TraceFromTen();
    TracePrepend(20, t); t := [20] + t;
    TracePrepend(40, t); t := [40] + t;
    TracePrepend(13, t); t := [13] + t;
    TracePrepend(26, t); t := [26] + t;
    TracePrepend(52, t); t := [52] + t;
    TracePrepend(17, t); t := [17] + t;
    TracePrepend(34, t); t := [34] + t;
    TracePrepend(11, t); t := [11] + t;
    TracePrepend(22, t); t := [22] + t;
    TracePrepend(7, t); t := [7] + t;
    WondrousFinds(7, t, 16);
  }
}
