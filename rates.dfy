/** The rate table: one rate per bucket. Bucket 0 is the absorption bucket;
    bucket i >= 1 desorbs at rd * alpha^(i-1). */
module Rates {

  /** b^n for a natural exponent (Python's `**` on these operands). */
  function Pow(b: real, n: nat): real {
    if n == 0 then 1.0 else b * Pow(b, n - 1)
  }

  /** The rate the table assigns to bucket i. */
  function Rate(ra: real, rd: real, alpha: real, i: nat): real {
    if i == 0 then ra else rd * Pow(alpha, i - 1)
  }

  /** The six-entry rate table as a value. */
  function RateTable(ra: real, rd: real, alpha: real): (t: seq<real>)
    ensures |t| == 6
  {
    seq(6, i requires 0 <= i < 6 => Rate(ra, rd, alpha, i))
  }

  /** Fills a fresh six-entry table: entry 0 is the absorption rate, entry i
      the desorption rate for a site with i-1 occupied neighbours. */
  method BuildRates(ra: real, rd: real, alpha: real) returns (rates: array<real>)
    ensures fresh(rates) && rates.Length == 6
    ensures rates[0] == ra
    ensures forall i :: 1 <= i < 6 ==> rates[i] == rd * Pow(alpha, i - 1)
    ensures rates[..] == RateTable(ra, rd, alpha)
  {
    rates := new real[6](_ => 0.0);
    rates[0] := ra;
    for i := 1 to 6
      invariant rates[0] == ra
      invariant forall k :: 1 <= k < i ==> rates[k] == rd * Pow(alpha, k - 1)
    {
      var numNeighbours := i - 1;
      rates[i] := rd * Pow(alpha, numNeighbours);
    }
  }

  lemma {:induction false} PowNonNegative(b: real, n: nat)
    requires b >= 0.0
    ensures Pow(b, n) >= 0.0
  {
    if n > 0 {
      PowNonNegative(b, n - 1);
    }
  }

  /** With non-negative parameters every rate is non-negative. */
  lemma RatesNonNegative(ra: real, rd: real, alpha: real)
    requires ra >= 0.0 && rd >= 0.0 && alpha >= 0.0
    ensures forall i :: 0 <= i < 6 ==> RateTable(ra, rd, alpha)[i] >= 0.0
  {
    forall i | 1 <= i < 6
      ensures RateTable(ra, rd, alpha)[i] >= 0.0
    {
      PowNonNegative(alpha, i - 1);
    }
  }

  /** The desorption rates form a geometric progression: one more occupied
      neighbour multiplies the rate by alpha. */
  lemma RatesGeometric(ra: real, rd: real, alpha: real)
    ensures RateTable(ra, rd, alpha)[1] == rd
    ensures forall i :: 1 <= i < 5 ==>
      RateTable(ra, rd, alpha)[i + 1] == RateTable(ra, rd, alpha)[i] * alpha
  {
  }

  lemma {:induction false} PowOne(n: nat)
    ensures Pow(1.0, n) == 1.0
  {
    if n > 0 {
      PowOne(n - 1);
    }
  }

  /** With alpha = 1 (no neighbour interaction) every desorption bucket has
      the same rate rd. */
  lemma NoInteractionUniformDesorption(ra: real, rd: real)
    ensures forall i :: 1 <= i < 6 ==> RateTable(ra, rd, 1.0)[i] == rd
  {
    forall i | 1 <= i < 6
      ensures RateTable(ra, rd, 1.0)[i] == rd
    {
      PowOne(i - 1);
    }
  }
}
