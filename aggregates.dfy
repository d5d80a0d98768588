/** Python's `min`, `max` and `sum` over non-empty lists, and the mean `sum / len`. */
module Aggregates {

  function Sum(s: seq<real>): real
    decreases |s|
  {
    if s == [] then 0.0 else Sum(s[..|s| - 1]) + s[|s| - 1]
  }

  function Min(s: seq<real>): (m: real)
    requires |s| > 0
    ensures m in s
    ensures forall i :: 0 <= i < |s| ==> m <= s[i]
    decreases |s|
  {
    if |s| == 1 then s[0]
    else
      var prior := Min(s[..|s| - 1]);
      if s[|s| - 1] < prior then s[|s| - 1] else prior
  }

  function Max(s: seq<real>): (m: real)
    requires |s| > 0
    ensures m in s
    ensures forall i :: 0 <= i < |s| ==> s[i] <= m
    decreases |s|
  {
    if |s| == 1 then s[0]
    else
      var prior := Max(s[..|s| - 1]);
      if s[|s| - 1] > prior then s[|s| - 1] else prior
  }

  function Mean(s: seq<real>): real
    requires |s| > 0
  {
    Sum(s) / (|s| as real)
  }

  /** The sum of `n` values lies between `n` times the least and `n` times the greatest. */
  lemma {:induction false} SumBetween(s: seq<real>, lo: real, hi: real)
    requires forall i :: 0 <= i < |s| ==> lo <= s[i] <= hi
    ensures (|s| as real) * lo <= Sum(s) <= (|s| as real) * hi
    decreases |s|
  {
    if s != [] {
      var p := s[..|s| - 1];
      assert forall i :: 0 <= i < |p| ==> p[i] == s[i];
      SumBetween(p, lo, hi);
      assert (|s| as real) * lo == (|p| as real) * lo + lo;
      assert (|s| as real) * hi == (|p| as real) * hi + hi;
    }
  }

  /** Dividing both sides of `n * a <= b <= n * c` by a positive `n`. */
  lemma DivideBetween(n: real, a: real, b: real, c: real)
    requires n > 0.0
    requires n * a <= b <= n * c
    ensures a <= b / n <= c
  {
  }

  /** The mean of a non-empty list lies between its minimum and its maximum. */
  lemma MeanBetween(s: seq<real>)
    requires |s| > 0
    ensures Min(s) <= Mean(s) <= Max(s)
  {
    MeanBounds(s, Min(s), Max(s));
  }

  /** Any bounds on every element bound the mean. */
  lemma MeanBounds(s: seq<real>, lo: real, hi: real)
    requires |s| > 0
    requires forall i :: 0 <= i < |s| ==> lo <= s[i] <= hi
    ensures lo <= Mean(s) <= hi
  {
    SumBetween(s, lo, hi);
    DivideBetween(|s| as real, lo, Sum(s), hi);
  }

  // Timestamps are integers while distances and altitudes are reals, so the least and
  // greatest timestamp of a group have their own integer versions of `Min` and `Max`.

  function MinInt(s: seq<int>): (m: int)
    requires |s| > 0
    ensures m in s
    ensures forall i :: 0 <= i < |s| ==> m <= s[i]
    decreases |s|
  {
    if |s| == 1 then s[0]
    else
      var prior := MinInt(s[..|s| - 1]);
      if s[|s| - 1] < prior then s[|s| - 1] else prior
  }

  function MaxInt(s: seq<int>): (m: int)
    requires |s| > 0
    ensures m in s
    ensures forall i :: 0 <= i < |s| ==> s[i] <= m
    decreases |s|
  {
    if |s| == 1 then s[0]
    else
      var prior := MaxInt(s[..|s| - 1]);
      if s[|s| - 1] > prior then s[|s| - 1] else prior
  }
}
