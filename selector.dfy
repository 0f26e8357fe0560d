/** Event selection: the total rate, the cumulative probability table, the
    class picked by the first draw and the site index picked by the second. */
module Selector {

  datatype Option<T> = None | Some(value: T)

  /** Rate-weighted size of bucket i: num_times[i] * rates[i]. */
  function Weight(c: seq<int>, r: seq<real>, i: int): real
    requires 0 <= i < |c| && i < |r|
  {
    c[i] as real * r[i]
  }

  /** Sum of the first n weights. */
  ghost function PartialRate(c: seq<int>, r: seq<real>, n: int): real
    requires 0 <= n <= |c| && n <= |r|
  {
    if n == 0 then 0.0 else PartialRate(c, r, n - 1) + Weight(c, r, n - 1)
  }

  /** The total rate of all six buckets. */
  ghost function TotalOf(c: seq<int>, r: seq<real>): real
    requires |c| == 6 && |r| == 6
  {
    PartialRate(c, r, 6)
  }

  ghost predicate NonNegativeWeights(c: seq<int>, r: seq<real>)
    requires |c| == 6 && |r| == 6
  {
    forall i :: 0 <= i < 6 ==> Weight(c, r, i) >= 0.0
  }

  /** Accumulates total_rate over the six buckets. */
  method TotalRate(numTimes: array<int>, rates: array<real>) returns (total: real)
    requires numTimes.Length == 6 && rates.Length == 6
    ensures total == TotalOf(numTimes[..], rates[..])
  {
    total := 0.0;
    for i := 0 to 6
      invariant total == PartialRate(numTimes[..], rates[..], i)
    {
      total := total + numTimes[i] as real * rates[i];
    }
  }

  lemma {:induction false} PartialRateBounds(c: seq<int>, r: seq<real>, n: int)
    requires |c| == 6 && |r| == 6 && 0 <= n <= 6 && NonNegativeWeights(c, r)
    ensures 0.0 <= PartialRate(c, r, n) <= TotalOf(c, r)
    ensures PartialRate(c, r, n) == 0.0 <==> forall i :: 0 <= i < n ==> Weight(c, r, i) == 0.0
    decreases 6 - n
  {
    if n < 6 {
      PartialRateBounds(c, r, n + 1);
    }
    PartialRateZero(c, r, n);
  }

  lemma {:induction false} PartialRateZero(c: seq<int>, r: seq<real>, n: int)
    requires |c| == 6 && |r| == 6 && 0 <= n <= 6 && NonNegativeWeights(c, r)
    ensures 0.0 <= PartialRate(c, r, n)
    ensures PartialRate(c, r, n) == 0.0 <==> forall i :: 0 <= i < n ==> Weight(c, r, i) == 0.0
  {
    if n > 0 {
      PartialRateZero(c, r, n - 1);
    }
  }

  /** With non-negative weights the total rate is zero exactly when every
      bucket has zero weight, and positive otherwise. */
  lemma TotalZeroIff(c: seq<int>, r: seq<real>)
    requires |c| == 6 && |r| == 6 && NonNegativeWeights(c, r)
    ensures TotalOf(c, r) >= 0.0
    ensures TotalOf(c, r) == 0.0 <==> forall i :: 0 <= i < 6 ==> Weight(c, r, i) == 0.0
  {
    PartialRateZero(c, r, 6);
  }

  /** When only bucket 0 has sites, the total rate is bucket 0's weight. */
  lemma TotalOfFirstOnly(c: seq<int>, r: seq<real>)
    requires |c| == 6 && |r| == 6
    requires forall i :: 1 <= i < 6 ==> c[i] == 0
    ensures TotalOf(c, r) == Weight(c, r, 0)
  {
    assert PartialRate(c, r, 1) == Weight(c, r, 0);
    assert PartialRate(c, r, 3) == PartialRate(c, r, 1);
    assert PartialRate(c, r, 5) == PartialRate(c, r, 3);
  }

  /** prob[i] as defined by the recurrence that fills the table. */
  ghost function CumProb(c: seq<int>, r: seq<real>, total: real, i: int): real
    requires |c| == 6 && |r| == 6 && total != 0.0 && 0 <= i < 6
  {
    if i == 0 then Weight(c, r, 0) / total
    else CumProb(c, r, total, i - 1) + Weight(c, r, i) / total
  }

  ghost function Probs(c: seq<int>, r: seq<real>, total: real): (p: seq<real>)
    requires |c| == 6 && |r| == 6 && total != 0.0
    ensures |p| == 6
  {
    seq(6, i requires 0 <= i < 6 => CumProb(c, r, total, i))
  }

  /** Fills the cumulative probability table from the bucket counts, the
      rates and the (non-zero) total rate. */
  method FillProb(prob: array<real>, numTimes: array<int>, rates: array<real>, total: real)
    requires prob.Length == 6 && numTimes.Length == 6 && rates.Length == 6 && prob != rates
    requires total != 0.0
    modifies prob
    ensures prob[..] == Probs(numTimes[..], rates[..], total)
  {
    prob[0] := numTimes[0] as real * rates[0] / total;
    for i := 0 to 5
      invariant forall k :: 0 <= k <= i ==> prob[k] == CumProb(numTimes[..], rates[..], total, k)
    {
      prob[i + 1] := prob[i] + numTimes[i + 1] as real * rates[i + 1] / total;
    }
  }

  /** prob[i] is the share of the total rate carried by buckets 0..i. */
  lemma {:induction false} CumProbClosedForm(c: seq<int>, r: seq<real>, total: real, i: int)
    requires |c| == 6 && |r| == 6 && total != 0.0 && 0 <= i < 6
    ensures CumProb(c, r, total, i) == PartialRate(c, r, i + 1) / total
  {
    if i > 0 {
      CumProbClosedForm(c, r, total, i - 1);
      var a := PartialRate(c, r, i);
      var w := Weight(c, r, i);
      assert a / total + w / total == (a + w) / total;
    }
  }

  ghost predicate Ascending(p: seq<real>) {
    forall i, j :: 0 <= i <= j < |p| ==> p[i] <= p[j]
  }

  /** The table the recurrence fills is non-decreasing, starts at a
      non-negative value and ends at exactly 1. */
  lemma ProbsShape(c: seq<int>, r: seq<real>, total: real)
    requires |c| == 6 && |r| == 6 && NonNegativeWeights(c, r)
    requires total == TotalOf(c, r) && total != 0.0
    ensures Ascending(Probs(c, r, total))
    ensures Probs(c, r, total)[0] >= 0.0
    ensures Probs(c, r, total)[5] == 1.0
  {
    TotalZeroIff(c, r);
    var p := Probs(c, r, total);
    forall i, j | 0 <= i <= j < 6
      ensures p[i] <= p[j]
    {
      CumProbClosedForm(c, r, total, i);
      CumProbClosedForm(c, r, total, j);
      PartialRateMonotone(c, r, i + 1, j + 1);
      DivideMonotone(PartialRate(c, r, i + 1), PartialRate(c, r, j + 1), total);
    }
    CumProbClosedForm(c, r, total, 0);
    PartialRateZero(c, r, 1);
    DivideMonotone(0.0, PartialRate(c, r, 1), total);
    CumProbClosedForm(c, r, total, 5);
    assert total / total == 1.0;
  }

  lemma {:induction false} PartialRateMonotone(c: seq<int>, r: seq<real>, m: int, n: int)
    requires |c| == 6 && |r| == 6 && NonNegativeWeights(c, r) && 0 <= m <= n <= 6
    ensures PartialRate(c, r, m) <= PartialRate(c, r, n)
    decreases n - m
  {
    if m < n {
      PartialRateMonotone(c, r, m, n - 1);
    }
  }

  lemma DivideMonotone(a: real, b: real, t: real)
    requires a <= b && t > 0.0
    ensures a / t <= b / t
  {
    assert b / t - a / t == (b - a) / t;
  }

  /** The width of class i's interval in the table is its share of the total
      rate: this is what makes the draw pick a class with probability
      proportional to num_times[i] * rates[i]. */
  lemma ProbsWidth(c: seq<int>, r: seq<real>, total: real, i: int)
    requires |c| == 6 && |r| == 6 && total != 0.0 && 1 <= i < 6
    ensures Probs(c, r, total)[i] - Probs(c, r, total)[i - 1] == Weight(c, r, i) / total
    ensures Probs(c, r, total)[0] == Weight(c, r, 0) / total
  {
  }

  /** The class whose interval (prob[n-1], prob[n]] holds rand, looking at
      classes 1..n and keeping the last one that matches, as the desorption
      loop does. */
  function LastMatch(p: seq<real>, rand: real, n: int): (m: Option<int>)
    requires |p| == 6 && 0 <= n <= 5
    ensures m.Some? ==> 1 <= m.value <= n
  {
    if n == 0 then None
    else if p[n - 1] < rand <= p[n] then Some(n)
    else LastMatch(p, rand, n - 1)
  }

  /** The class the first draw selects: absorption (class 0) when
      rand <= prob[0], otherwise the class whose interval holds rand. */
  function Choose(p: seq<real>, rand: real): (m: Option<int>)
    requires |p| == 6
    ensures m.Some? ==> 0 <= m.value <= 5
  {
    if rand <= p[0] then Some(0) else LastMatch(p, rand, 5)
  }

  lemma {:induction false} LastMatchExact(p: seq<real>, rand: real, n: int, k: int)
    requires |p| == 6 && 0 <= n <= 5 && Ascending(p)
    ensures LastMatch(p, rand, n) == Some(k) <==> 1 <= k <= n && p[k - 1] < rand <= p[k]
  {
    if n > 0 {
      LastMatchExact(p, rand, n - 1, k);
    }
  }

  /** On a non-decreasing table at most one class is selected: class 0 iff
      rand <= prob[0], class k >= 1 iff prob[k-1] < rand <= prob[k]. */
  lemma ChooseExact(p: seq<real>, rand: real, k: int)
    requires |p| == 6 && Ascending(p)
    ensures Choose(p, rand) == Some(k) <==>
      (k == 0 && rand <= p[0]) || (1 <= k <= 5 && p[k - 1] < rand <= p[k])
  {
    LastMatchExact(p, rand, 5, k);
  }

  /** A draw that does not exceed prob[5] always selects a class. */
  lemma ChooseDefined(p: seq<real>, rand: real)
    requires |p| == 6 && Ascending(p) && rand <= p[5]
    ensures Choose(p, rand).Some?
  {
    if rand > p[0] {
      var k :| 1 <= k <= 5 && p[k - 1] < rand <= p[k] by {
        FirstAbove(p, rand, 5);
      }
      LastMatchExact(p, rand, 5, k);
    }
  }

  lemma {:induction false} FirstAbove(p: seq<real>, rand: real, n: int)
    requires |p| == 6 && 1 <= n <= 5 && p[0] < rand <= p[n]
    ensures exists k :: 1 <= k <= n && p[k - 1] < rand <= p[k]
  {
    if p[n - 1] >= rand {
      FirstAbove(p, rand, n - 1);
    }
  }

  /** For a positive draw the selected class carries a positive weight, so
      its site list is non-empty; a draw in (0, 1] always selects a class. */
  lemma ChosenHasWeight(c: seq<int>, r: seq<real>, total: real, rand: real, k: int)
    requires |c| == 6 && |r| == 6 && NonNegativeWeights(c, r)
    requires forall i :: 0 <= i < 6 ==> c[i] >= 0
    requires total == TotalOf(c, r) && total != 0.0
    requires 0.0 < rand
    ensures rand <= 1.0 ==> Choose(Probs(c, r, total), rand).Some?
    ensures Choose(Probs(c, r, total), rand) == Some(k) ==> Weight(c, r, k) > 0.0 && c[k] >= 1
  {
    var p := Probs(c, r, total);
    ProbsShape(c, r, total);
    if rand <= 1.0 {
      ChooseDefined(p, rand);
    }
    TotalZeroIff(c, r);
    if Choose(p, rand) == Some(k) {
      ChooseExact(p, rand, k);
      if k == 0 {
        assert Weight(c, r, 0) / total > 0.0;
      } else {
        ProbsWidth(c, r, total, k);
        assert Weight(c, r, k) / total > 0.0;
      }
      PositiveQuotient(Weight(c, r, k), total);
    }
  }

  lemma PositiveQuotient(w: real, t: real)
    requires t > 0.0 && w / t > 0.0
    ensures w > 0.0
  {
  }

  /** A draw of exactly 0 with prob[0] == 0 still selects class 0, whose
      weight and site list may be empty. */
  lemma ZeroDrawSelectsEmptyClass()
    ensures Probs([0, 1, 0, 0, 0, 0], [1.0, 1.0, 1.0, 1.0, 1.0, 1.0], 1.0)[0] == 0.0
    ensures Choose(Probs([0, 1, 0, 0, 0, 0], [1.0, 1.0, 1.0, 1.0, 1.0, 1.0], 1.0), 0.0) == Some(0)
    ensures Weight([0, 1, 0, 0, 0, 0], [1.0, 1.0, 1.0, 1.0, 1.0, 1.0], 0) == 0.0
  {
    var p := Probs([0, 1, 0, 0, 0, 0], [1.0, 1.0, 1.0, 1.0, 1.0, 1.0], 1.0);
    assert p[0] == CumProb([0, 1, 0, 0, 0, 0], [1.0, 1.0, 1.0, 1.0, 1.0, 1.0], 1.0, 0);
  }

  /** The site index for a draw u among n sites: floor(u * n + 1), clamped
      to n, minus one. */
  function PickIndex(u: real, n: int): (idx: int)
    requires 0.0 <= u <= 1.0 && n >= 0
    ensures n >= 1 ==> 0 <= idx < n
    ensures n == 0 ==> idx == -1
    ensures n >= 1 && u < 1.0 ==> idx as real <= u * n as real < idx as real + 1.0
  {
    var temp := (u * n as real + 1.0).Floor;
    var clamped := if temp > n then n else temp;
    clamped - 1
  }

  /** For u in [0, 1) the index is k exactly when u falls in [k/n, (k+1)/n):
      every site of the bucket is picked with the same probability 1/n. */
  lemma PickIndexUniform(u: real, n: int, k: int)
    requires 0.0 <= u < 1.0 && n >= 1 && 0 <= k < n
    ensures PickIndex(u, n) == k <==> k as real / n as real <= u < (k + 1) as real / n as real
  {
    var m := n as real;
    var idx := PickIndex(u, n);
    assert idx as real <= u * m < idx as real + 1.0;
    assert k as real / m <= u <==> k as real <= u * m by {
      ScaleBound(k as real, u, m);
    }
    assert u < (k + 1) as real / m <==> u * m < (k + 1) as real by {
      ScaleBound((k + 1) as real, u, m);
    }
  }

  lemma ScaleBound(a: real, u: real, m: real)
    requires m > 0.0
    ensures a / m <= u <==> a <= u * m
    ensures u < a / m <==> u * m < a
  {
    assert (a / m) * m == a;
  }

  /** The clamp matters only at u == 1, where it picks the last site. */
  lemma PickIndexClamp(n: int)
    requires n >= 1
    ensures PickIndex(1.0, n) == n - 1
  {
  }
}
