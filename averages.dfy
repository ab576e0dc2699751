/** The mean of the daily counts, as an exact rational, and its relation to the sum and the maximum. */
module Averages {
  import opened Counting
  import opened Daily

  /** The sum of a sequence is at most its length times its largest element. */
  lemma {:induction false} SumAtMostLengthTimesMax(s: seq<nat>, m: nat)
    requires forall i :: 0 <= i < |s| ==> s[i] <= m
    ensures Sum(s) <= |s| * m
  {
    if s != [] {
      SumAtMostLengthTimesMax(s[1..], m);
    }
  }

  lemma QuotientTimes(total: nat, n: nat)
    requires n > 0
    ensures (total as real / n as real) * (n as real) == total as real
  {
  }

  lemma QuotientBound(total: nat, n: nat, m: nat)
    requires n > 0 && total <= n * m
    ensures total as real / n as real <= m as real
  {
    var q := total as real / n as real;
    QuotientTimes(total, n);
    assert (n * m) as real == n as real * m as real;
    assert n as real * (m as real - q) >= 0.0;
  }

  /** avg is the average of n values that add up to total. */
  predicate IsAverage(avg: real, total: nat, n: nat) {
    avg * (n as real) == total as real
  }

  /**
   * The arithmetic mean of a non-empty sequence of counts, as an exact
   * rational: it times the length is the sum, and it is at most the largest
   * count.
   */
  function Mean(s: seq<nat>): (m: real)
    requires s != []
    ensures IsAverage(m, Sum(s), |s|)
    ensures m <= MaxOf(s) as real
  {
    var total, n, m := Sum(s), |s|, MaxOf(s);
    assert forall i :: 0 <= i < |s| ==> s[i] <= m;
    QuotientTimes(total, n);
    assert IsAverage(total as real / n as real, total, n);
    hide *;
    SumAtMostLengthTimesMax(s, m);
    QuotientBound(total, n, m);
    total as real / n as real
  }

  /** The mean of a single day's count is that count. */
  lemma MeanSingle(n: nat)
    ensures Mean([n]) == n as real && MaxOf([n]) == n
  {
    SumSingle([n]);
  }
}
