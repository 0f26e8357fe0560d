/** One kinetic Monte Carlo step (classify, pick an event, apply it) and the
    driver that runs num_runs steps from the empty lattice, recording the
    coverage after each. The two uniform draws of a step are parameters. */
module Kmc {
  import opened Lattice
  import opened Classifier
  import opened Selector
  import opened Rates

  /** The class of the event the first draw selects on lattice g, or None
      when no event happens: a zero total rate (0/0 gives NaN
      probabilities, and every comparison with NaN is false), or a draw
      above prob[5]. */
  ghost function Event(g: Grid, L: int, r: seq<real>, rand: real): (e: Option<int>)
    requires Shaped(g, L) && |r| == 6
    ensures e.Some? ==> 0 <= e.value <= 5
  {
    var c := Counts(g, L);
    var total := TotalOf(c, r);
    if total == 0.0 then None else Choose(Probs(c, r, total), rand)
  }

  /** The lattice after class k's event with site draw u: the picked site of
      bucket k is set to 1 (class 0, absorption) or 0 (desorption). None
      when the picked index is -1, i.e. the bucket is empty and the list
      lookup fails. */
  ghost function Flipped(g: Grid, L: int, k: int, u: real): (h: Option<Grid>)
    requires Shaped(g, L) && 0 <= k < 6 && 0.0 <= u <= 1.0
    ensures h.Some? <==> |Bucket(g, L, k)| >= 1
  {
    var b := Bucket(g, L, k);
    var idx := PickIndex(u, |b|);
    if idx < 0 then None
    else
      var s := b[idx];
      BucketMembership(g, L, k, s);
      Some(SetSite(g, L, s.0, s.1, if k == 0 then 1 else 0))
  }

  /** The lattice after one step, or None when the step fails. */
  ghost function StepSpec(g: Grid, L: int, r: seq<real>, rand: real, u: real): Option<Grid>
    requires Shaped(g, L) && |r| == 6 && 0.0 <= u <= 1.0
  {
    match Event(g, L, r, rand)
    case None => Some(g)
    case Some(k) => Flipped(g, L, k, u)
  }

  /** Picks the site of bucket k for draw u and sets it, with its ghost
      copies, to 1 for class 0 and 0 otherwise. Fails (ok == false) when the
      bucket is empty, where the source's list lookup raises. */
  method Flip(lat: array2<int>, L: int, numTimes: array<int>, sites: array<seq<Site>>, k: int, u: real)
    returns (ok: bool)
    requires lat.Length0 == L + 2 && lat.Length1 == L + 2 && L >= 1
    requires numTimes.Length == 6 && sites.Length == 6 && 0 <= k < 6 && 0.0 <= u <= 1.0
    requires numTimes[..] == Counts(Snapshot(lat), L)
    requires forall i :: 0 <= i < 6 ==> sites[i] == Bucket(Snapshot(lat), L, i)
    modifies lat
    ensures ok ==> Flipped(old(Snapshot(lat)), L, k, u) == Some(Snapshot(lat))
    ensures !ok ==> Flipped(old(Snapshot(lat)), L, k, u).None? && Snapshot(lat) == old(Snapshot(lat))
  {
    ghost var g := Snapshot(lat);
    var temp := PickIndex(u, numTimes[k]);
    if temp < 0 {
      return false;
    }
    var x := sites[k][temp].0;
    var y := sites[k][temp].1;
    BucketMembership(g, L, k, (x, y));
    Apply(lat, L, x, y, if k == 0 then 1 else 0);
    ok := true;
  }

  /** The lattice after the desorption loop has looked at classes 1..n. */
  ghost function AfterMatches(g: Grid, L: int, p: seq<real>, rand: real, u: real, n: int): Option<Grid>
    requires Shaped(g, L) && |p| == 6 && 0 <= n <= 5 && 0.0 <= u <= 1.0
  {
    match LastMatch(p, rand, n)
    case None => Some(g)
    case Some(k) => Flipped(g, L, k, u)
  }

  /** The desorption loop: for every class i + 1 whose interval
      (prob[i], prob[i + 1]] holds rand, flip a site of bucket i + 1 to 0.
      On a non-decreasing table at most one class matches. */
  method Desorb(lat: array2<int>, L: int, numTimes: array<int>, sites: array<seq<Site>>,
                prob: array<real>, rand: real, u: real)
    requires lat.Length0 == L + 2 && lat.Length1 == L + 2 && L >= 1
    requires numTimes.Length == 6 && sites.Length == 6 && prob.Length == 6 && 0.0 <= u <= 1.0
    requires numTimes[..] == Counts(Snapshot(lat), L)
    requires forall i :: 0 <= i < 6 ==> sites[i] == Bucket(Snapshot(lat), L, i)
    requires Ascending(prob[..])
    requires forall i :: 1 <= i < 6 && prob[i - 1] < prob[i] ==> numTimes[i] >= 1
    modifies lat
    ensures AfterMatches(old(Snapshot(lat)), L, prob[..], rand, u, 5) == Some(Snapshot(lat))
  {
    ghost var g := Snapshot(lat);
    ghost var p := prob[..];
    for i := 0 to 5
      invariant AfterMatches(g, L, p, rand, u, i) == Some(Snapshot(lat))
    {
      if prob[i] < rand <= prob[i + 1] {
        NoEarlierMatch(p, rand, i);
        var ok := Flip(lat, L, numTimes, sites, i + 1, u);
      }
    }
  }

  /** On a non-decreasing table, a match at interval i rules out a match
      among the earlier classes 1..i. */
  lemma NoEarlierMatch(p: seq<real>, rand: real, i: int)
    requires |p| == 6 && Ascending(p) && 0 <= i < 5 && p[i] < rand <= p[i + 1]
    ensures LastMatch(p, rand, i).None?
  {
    if LastMatch(p, rand, i).Some? {
      LastMatchExact(p, rand, i, LastMatch(p, rand, i).value);
    }
  }

  /** One step of the simulation on the lattice array: classify the sites,
      compute the total rate and the probability table, select the event
      with draw rand and apply it with site draw u. ok is false exactly when
      the selected bucket is empty (only possible for rand <= 0). */
  method Step(lat: array2<int>, L: int, rates: array<real>, prob: array<real>, rand: real, u: real)
    returns (ok: bool)
    requires lat.Length0 == L + 2 && lat.Length1 == L + 2 && L >= 1
    requires rates.Length == 6 && prob.Length == 6 && prob != rates
    requires Binary(Snapshot(lat))
    requires forall i :: 0 <= i < 6 ==> rates[i] >= 0.0
    requires 0.0 <= u <= 1.0
    modifies lat, prob
    ensures ok ==> StepSpec(old(Snapshot(lat)), L, rates[..], rand, u) == Some(Snapshot(lat))
    ensures !ok ==> StepSpec(old(Snapshot(lat)), L, rates[..], rand, u).None?
    ensures TotalOf(Counts(old(Snapshot(lat)), L), rates[..]) != 0.0 ==>
      prob[..] == Probs(Counts(old(Snapshot(lat)), L), rates[..], TotalOf(Counts(old(Snapshot(lat)), L), rates[..]))
    ensures TotalOf(Counts(old(Snapshot(lat)), L), rates[..]) == 0.0 ==> prob[..] == old(prob[..])
  {
    ghost var g := Snapshot(lat);
    StepCases(g, L, rates[..], rand, u);
    var numTimes, sites := Classify(lat, L);
    var total := TotalRate(numTimes, rates);
    if total == 0.0 {
      // Every prob entry is 0/0 = NaN: neither branch below is taken.
      return true;
    }
    ok := Select(lat, L, rates, prob, numTimes, sites, total, rand, u);
  }

  /** The part of a step after the total rate is known to be non-zero: fill
      the probability table, then take the absorption branch or run the
      desorption loop. */
  method Select(lat: array2<int>, L: int, rates: array<real>, prob: array<real>,
                numTimes: array<int>, sites: array<seq<Site>>, total: real, rand: real, u: real)
    returns (ok: bool)
    requires lat.Length0 == L + 2 && lat.Length1 == L + 2 && L >= 1
    requires rates.Length == 6 && prob.Length == 6 && prob != rates
    requires numTimes.Length == 6 && sites.Length == 6
    requires forall i :: 0 <= i < 6 ==> rates[i] >= 0.0
    requires 0.0 <= u <= 1.0
    requires numTimes[..] == Counts(Snapshot(lat), L)
    requires forall k :: 0 <= k < 6 ==> sites[k] == Bucket(Snapshot(lat), L, k)
    requires total == TotalOf(numTimes[..], rates[..]) && total != 0.0
    modifies lat, prob
    ensures ok ==> StepSpec(old(Snapshot(lat)), L, rates[..], rand, u) == Some(Snapshot(lat))
    ensures !ok ==> StepSpec(old(Snapshot(lat)), L, rates[..], rand, u).None?
    ensures prob[..] == Probs(Counts(old(Snapshot(lat)), L), rates[..], total)
  {
    ghost var g := Snapshot(lat);
    StepCases(g, L, rates[..], rand, u);
    FillProb(prob, numTimes, rates, total);
    ProbsTrackSites(g, L, rates[..], total);
    if rand <= prob[0] {
      ok := Flip(lat, L, numTimes, sites, 0, u);
    } else {
      // The source's `elif rand > prob[0]`, always true here.
      Desorb(lat, L, numTimes, sites, prob, rand, u);
      ok := true;
    }
  }

  /** Each interval (prob[i-1], prob[i]] of positive width belongs to a
      bucket that has at least one site. */
  lemma ProbsTrackSites(g: Grid, L: int, r: seq<real>, total: real)
    requires Shaped(g, L) && |r| == 6
    requires forall i :: 0 <= i < 6 ==> r[i] >= 0.0
    requires total == TotalOf(Counts(g, L), r) && total != 0.0
    ensures Ascending(Probs(Counts(g, L), r, total))
    ensures forall i :: 1 <= i < 6 && Probs(Counts(g, L), r, total)[i - 1] < Probs(Counts(g, L), r, total)[i] ==>
      Counts(g, L)[i] >= 1
  {
    var c := Counts(g, L);
    CountsNonNegative(g, L);
    WeightsNonNegative(c, r);
    ProbsShape(c, r, total);
    forall i | 1 <= i < 6 && Probs(c, r, total)[i - 1] < Probs(c, r, total)[i]
      ensures c[i] >= 1
    {
      ProbsWidth(c, r, total, i);
      PositiveWidthHasSites(c, r, total, i);
    }
  }

  /** The three ways a step can go: no event, the absorption branch, or the
      desorption loop. */
  lemma StepCases(g: Grid, L: int, r: seq<real>, rand: real, u: real)
    requires Shaped(g, L) && |r| == 6 && 0.0 <= u <= 1.0
    ensures TotalOf(Counts(g, L), r) == 0.0 ==> StepSpec(g, L, r, rand, u) == Some(g)
    ensures TotalOf(Counts(g, L), r) != 0.0 && rand <= Probs(Counts(g, L), r, TotalOf(Counts(g, L), r))[0] ==>
      StepSpec(g, L, r, rand, u) == Flipped(g, L, 0, u)
    ensures TotalOf(Counts(g, L), r) != 0.0 && rand > Probs(Counts(g, L), r, TotalOf(Counts(g, L), r))[0] ==>
      StepSpec(g, L, r, rand, u) == AfterMatches(g, L, Probs(Counts(g, L), r, TotalOf(Counts(g, L), r)), rand, u, 5)
  {
  }

  lemma CountsNonNegative(g: Grid, L: int)
    requires Shaped(g, L)
    ensures forall i :: 0 <= i < 6 ==> Counts(g, L)[i] >= 0
  {
  }

  lemma WeightsNonNegative(c: seq<int>, r: seq<real>)
    requires |c| == 6 && |r| == 6
    requires forall i :: 0 <= i < 6 ==> c[i] >= 0 && r[i] >= 0.0
    ensures NonNegativeWeights(c, r)
  {
    forall i | 0 <= i < 6
      ensures Weight(c, r, i) >= 0.0
    {
      assert c[i] as real >= 0.0;
    }
  }

  lemma PositiveWidthHasSites(c: seq<int>, r: seq<real>, total: real, i: int)
    requires |c| == 6 && |r| == 6 && NonNegativeWeights(c, r) && 0 <= i < 6
    requires forall k :: 0 <= k < 6 ==> c[k] >= 0
    requires total == TotalOf(c, r) && total != 0.0
    requires Weight(c, r, i) / total > 0.0
    ensures c[i] >= 1
  {
    TotalZeroIff(c, r);
    PositiveQuotient(Weight(c, r, i), total);
    assert c[i] as real * r[i] > 0.0;
  }

  predicate ValidDraws(draws: seq<(real, real)>) {
    forall i :: 0 <= i < |draws| ==> 0.0 <= draws[i].1 <= 1.0
  }

  lemma PrefixValid(draws: seq<(real, real)>, n: int)
    requires ValidDraws(draws) && 0 <= n <= |draws|
    ensures ValidDraws(draws[..n])
  {
    forall i | 0 <= i < n
      ensures 0.0 <= draws[..n][i].1 <= 1.0
    {
      assert draws[..n][i] == draws[i];
    }
  }

  /** The lattice after the steps driven by draws, or None once a step
      fails. */
  ghost function Evolve(g: Grid, L: int, r: seq<real>, draws: seq<(real, real)>): (h: Option<Grid>)
    requires Shaped(g, L) && Binary(g) && |r| == 6 && ValidDraws(draws)
    ensures h.Some? ==> Shaped(h.value, L) && Binary(h.value)
    decreases |draws|
  {
    if |draws| == 0 then Some(g)
    else
      var n := |draws| - 1;
      PrefixValid(draws, n);
      var prev := Evolve(g, L, r, draws[..n]);
      if prev.None? then None
      else
        StepKeepsBinary(prev.value, L, r, draws[n].0, draws[n].1);
        StepSpec(prev.value, L, r, draws[n].0, draws[n].1)
  }

  lemma StepKeepsBinary(g: Grid, L: int, r: seq<real>, rand: real, u: real)
    requires Shaped(g, L) && Binary(g) && |r| == 6 && 0.0 <= u <= 1.0
    ensures StepSpec(g, L, r, rand, u).Some? ==>
      Shaped(StepSpec(g, L, r, rand, u).value, L) && Binary(StepSpec(g, L, r, rand, u).value)
  {
    var e := Event(g, L, r, rand);
    if e.Some? && Flipped(g, L, e.value, u).Some? {
      var b := Bucket(g, L, e.value);
      var s := b[PickIndex(u, |b|)];
      BucketMembership(g, L, e.value, s);
      SetSiteBinary(g, L, s.0, s.1, if e.value == 0 then 1 else 0);
    }
  }

  /** For L >= 2 a step keeps the ghost invariant. */
  lemma StepKeepsMirror(g: Grid, L: int, r: seq<real>, rand: real, u: real)
    requires Shaped(g, L) && L >= 2 && Binary(g) && Mirrored(g, L) && |r| == 6 && 0.0 <= u <= 1.0
    ensures StepSpec(g, L, r, rand, u).Some? ==> Mirrored(StepSpec(g, L, r, rand, u).value, L)
  {
    var e := Event(g, L, r, rand);
    if e.Some? && Flipped(g, L, e.value, u).Some? {
      var b := Bucket(g, L, e.value);
      var s := b[PickIndex(u, |b|)];
      BucketMembership(g, L, e.value, s);
      SetSitePreserves(g, L, s.0, s.1, if e.value == 0 then 1 else 0);
    }
  }

  /** With non-negative rates a positive draw never fails: the selected
      bucket always has a site. */
  lemma StepSucceeds(g: Grid, L: int, r: seq<real>, rand: real, u: real)
    requires Shaped(g, L) && Binary(g) && |r| == 6 && 0.0 <= u <= 1.0
    requires forall i :: 0 <= i < 6 ==> r[i] >= 0.0
    requires rand > 0.0
    ensures StepSpec(g, L, r, rand, u).Some?
  {
    var c := Counts(g, L);
    var total := TotalOf(c, r);
    if total != 0.0 {
      CountsNonNegative(g, L);
      WeightsNonNegative(c, r);
      var e := Choose(Probs(c, r, total), rand);
      if e.Some? {
        ChosenHasWeight(c, r, total, rand, e.value);
      }
    }
  }

  /** The occupied count after a step: unchanged when no event happens, one
      less after a desorption, one more or unchanged after an absorption
      (unchanged when the picked bucket-0 site was an occupied site without
      neighbours, in which case the lattice does not change at all). */
  lemma StepOccupancy(g: Grid, L: int, r: seq<real>, rand: real, u: real)
    requires Shaped(g, L) && Binary(g) && |r| == 6 && 0.0 <= u <= 1.0
    requires StepSpec(g, L, r, rand, u).Some?
    ensures Event(g, L, r, rand).None? ==> StepSpec(g, L, r, rand, u).value == g
    ensures Event(g, L, r, rand).Some? && Event(g, L, r, rand).value >= 1 ==>
      Occupied(StepSpec(g, L, r, rand, u).value, L) == Occupied(g, L) - 1
    ensures Event(g, L, r, rand) == Some(0) ==>
      Occupied(StepSpec(g, L, r, rand, u).value, L) == Occupied(g, L) + 1 ||
      Occupied(StepSpec(g, L, r, rand, u).value, L) == Occupied(g, L)
    ensures (Event(g, L, r, rand) == Some(0) && L >= 2 && Mirrored(g, L) &&
             Occupied(StepSpec(g, L, r, rand, u).value, L) == Occupied(g, L)) ==>
      StepSpec(g, L, r, rand, u).value == g
  {
    var e := Event(g, L, r, rand);
    if e.Some? {
      var k := e.value;
      var b := Bucket(g, L, k);
      var s := b[PickIndex(u, |b|)];
      var v := if k == 0 then 1 else 0;
      BucketMembership(g, L, k, s);
      OccupiedAfterSetSite(g, L, s.0, s.1, v);
      if k == 0 && L >= 2 && Mirrored(g, L) && g[s.0][s.1] == 1 {
        SetSiteSameValue(g, L, s.0, s.1, v);
      }
    }
  }

  /** Coverage moves by at most one site's worth, 1 / L^2, per step. */
  lemma CoverageStep(g: Grid, L: int, r: seq<real>, rand: real, u: real)
    requires Shaped(g, L) && Binary(g) && |r| == 6 && 0.0 <= u <= 1.0
    requires StepSpec(g, L, r, rand, u).Some?
    ensures -1.0 / (L * L) as real <= Coverage(StepSpec(g, L, r, rand, u).value, L) - Coverage(g, L)
    ensures Coverage(StepSpec(g, L, r, rand, u).value, L) - Coverage(g, L) <= 1.0 / (L * L) as real
  {
    StepOccupancy(g, L, r, rand, u);
    CoverageChange(g, StepSpec(g, L, r, rand, u).value, L);
  }

  /** When every rate is zero no event ever happens. */
  lemma ZeroRatesNoEvent(g: Grid, L: int, rand: real, u: real)
    requires Shaped(g, L) && 0.0 <= u <= 1.0
    ensures StepSpec(g, L, [0.0, 0.0, 0.0, 0.0, 0.0, 0.0], rand, u) == Some(g)
  {
    var r := [0.0, 0.0, 0.0, 0.0, 0.0, 0.0];
    ZeroRatesZeroTotal(Counts(g, L));
    assert Event(g, L, r, rand) == None;
  }

  lemma ZeroRatesZeroTotal(c: seq<int>)
    requires |c| == 6
    ensures TotalOf(c, [0.0, 0.0, 0.0, 0.0, 0.0, 0.0]) == 0.0
  {
    var r := [0.0, 0.0, 0.0, 0.0, 0.0, 0.0];
    forall i | 0 <= i < 6
      ensures Weight(c, r, i) == 0.0
    {
      assert r[i] == 0.0;
    }
    TotalZeroIff(c, r);
  }

  /** On the empty lattice every site is in bucket 0. */
  lemma EmptyCounts(L: int)
    requires L >= 1
    ensures Counts(Empty(L), L)[0] == L * L
    ensures forall k :: 1 <= k < 6 ==> Counts(Empty(L), L)[k] == 0
  {
    var g := Empty(L);
    forall k | 1 <= k < 6
      ensures Counts(g, L)[k] == 0
    {
      if Bucket(g, L, k) != [] {
        BucketMembership(g, L, k, Bucket(g, L, k)[0]);
      }
    }
    CountsSum(g, L);
  }

  /** From the empty lattice with a positive absorption rate, every positive
      draw up to 1 selects absorption, and the step fills exactly one site. */
  lemma FirstStepAbsorbs(L: int, r: seq<real>, rand: real, u: real)
    requires L >= 1 && |r| == 6 && r[0] > 0.0 && 0.0 < rand <= 1.0 && 0.0 <= u <= 1.0
    ensures Event(Empty(L), L, r, rand) == Some(0)
    ensures StepSpec(Empty(L), L, r, rand, u).Some?
    ensures Occupied(StepSpec(Empty(L), L, r, rand, u).value, L) == 1
  {
    var g := Empty(L);
    var c := Counts(g, L);
    EmptyCounts(L);
    assert L * L >= 1 by { assert L * L >= 1 * L; }
    TotalOfFirstOnly(c, r);
    var total := TotalOf(c, r);
    assert total == Weight(c, r, 0) > 0.0;
    assert Probs(c, r, total)[0] == 1.0;
    var b := Bucket(g, L, 0);
    var s := b[PickIndex(u, |b|)];
    BucketMembership(g, L, 0, s);
    OccupiedAfterSetSite(g, L, s.0, s.1, 1);
    OccupiedRowsAllEqual(g, L, L, 0);
  }

  /** One more draw extends the evolution by one step. */
  lemma EvolveExtend(g: Grid, L: int, r: seq<real>, draws: seq<(real, real)>, n: int)
    requires Shaped(g, L) && Binary(g) && |r| == 6 && ValidDraws(draws) && 0 <= n < |draws|
    requires Evolve(g, L, r, draws[..n]).Some?
    ensures Evolve(g, L, r, draws[..n + 1]) ==
      StepSpec(Evolve(g, L, r, draws[..n]).value, L, r, draws[n].0, draws[n].1)
  {
    assert draws[..n + 1][..n] == draws[..n];
  }

  /** The coverage recorded after step k (0-based) of the run driven by
      draws: the coverage of the lattice after the first k + 1 steps (0 if a
      step failed). */
  ghost function CoverageAt(L: int, r: seq<real>, draws: seq<(real, real)>, k: int): real
    requires L >= 1 && |r| == 6 && ValidDraws(draws) && 0 <= k < |draws|
  {
    PrefixValid(draws, k + 1);
    var h := Evolve(Empty(L), L, r, draws[..k + 1]);
    if h.Some? then Coverage(h.value, L) else 0.0
  }

  /** With non-negative rates and positive first draws no step fails. */
  lemma {:induction false} EvolveSucceeds(L: int, r: seq<real>, draws: seq<(real, real)>)
    requires L >= 1 && |r| == 6 && ValidDraws(draws)
    requires forall i :: 0 <= i < 6 ==> r[i] >= 0.0
    requires forall i :: 0 <= i < |draws| ==> draws[i].0 > 0.0
    ensures Evolve(Empty(L), L, r, draws).Some?
    decreases |draws|
  {
    if |draws| > 0 {
      var n := |draws| - 1;
      PrefixValid(draws, n);
      EvolveSucceeds(L, r, draws[..n]);
      StepSucceeds(Evolve(Empty(L), L, r, draws[..n]).value, L, r, draws[n].0, draws[n].1);
    }
  }

  /** For L >= 2 every lattice a run reaches satisfies the ghost invariant. */
  lemma {:induction false} EvolveMirrored(L: int, r: seq<real>, draws: seq<(real, real)>)
    requires L >= 2 && |r| == 6 && ValidDraws(draws)
    requires Evolve(Empty(L), L, r, draws).Some?
    ensures Mirrored(Evolve(Empty(L), L, r, draws).value, L)
    decreases |draws|
  {
    if |draws| > 0 {
      var n := |draws| - 1;
      PrefixValid(draws, n);
      EvolveMirrored(L, r, draws[..n]);
      StepKeepsMirror(Evolve(Empty(L), L, r, draws[..n]).value, L, r, draws[n].0, draws[n].1);
    }
  }

  /** Every prefix of a run with positive first draws succeeds. */
  lemma EvolveSucceedsPrefixes(L: int, r: seq<real>, draws: seq<(real, real)>)
    requires L >= 1 && |r| == 6 && ValidDraws(draws)
    requires forall i :: 0 <= i < 6 ==> r[i] >= 0.0
    requires forall i :: 0 <= i < |draws| ==> draws[i].0 > 0.0
    ensures forall n :: 0 <= n <= |draws| ==> Evolve(Empty(L), L, r, draws[..n]).Some?
  {
    forall n | 0 <= n <= |draws|
      ensures Evolve(Empty(L), L, r, draws[..n]).Some?
    {
      PrefixValid(draws, n);
      assert forall i :: 0 <= i < n ==> draws[..n][i] == draws[i];
      EvolveSucceeds(L, r, draws[..n]);
    }
  }

  /** Consecutive recorded coverages differ by at most 1 / L^2. */
  lemma RecordedCoverageStep(L: int, r: seq<real>, draws: seq<(real, real)>, k: int)
    requires L >= 1 && |r| == 6 && ValidDraws(draws) && 0 <= k && k + 1 < |draws|
    requires forall i :: 0 <= i < 6 ==> r[i] >= 0.0
    requires forall i :: 0 <= i < |draws| ==> draws[i].0 > 0.0
    ensures -1.0 / (L * L) as real <= CoverageAt(L, r, draws, k + 1) - CoverageAt(L, r, draws, k)
    ensures CoverageAt(L, r, draws, k + 1) - CoverageAt(L, r, draws, k) <= 1.0 / (L * L) as real
  {
    PrefixValid(draws, k + 1);
    PrefixValid(draws, k + 2);
    EvolveSucceedsPrefixes(L, r, draws);
    var prev := Evolve(Empty(L), L, r, draws[..k + 1]).value;
    EvolveExtend(Empty(L), L, r, draws, k + 1);
    CoverageStep(prev, L, r, draws[k + 1].0, draws[k + 1].1);
  }

  /** Every recorded coverage lies in [0, 1]. */
  lemma CoverageAtBounded(L: int, r: seq<real>, draws: seq<(real, real)>, k: int)
    requires L >= 1 && |r| == 6 && ValidDraws(draws) && 0 <= k < |draws|
    ensures 0.0 <= CoverageAt(L, r, draws, k) <= 1.0
  {
    PrefixValid(draws, k + 1);
    var h := Evolve(Empty(L), L, r, draws[..k + 1]);
  }

  /** A fresh all-empty lattice array. */
  method NewLattice(L: int) returns (lat: array2<int>)
    requires L >= 1
    ensures fresh(lat) && lat.Length0 == L + 2 && lat.Length1 == L + 2
    ensures Snapshot(lat) == Empty(L)
  {
    lat := new int[L + 2, L + 2]((a, b) => 0);
    forall a | 0 <= a < L + 2
      ensures Snapshot(lat)[a] == Empty(L)[a]
    {
    }
  }

  /** Iteration n of the run loop: one step driven by draws[n], then the
      coverage of the new lattice. */
  method Advance(lat: array2<int>, L: int, rates: array<real>, prob: array<real>,
                 draws: seq<(real, real)>, n: int) returns (coverage: real)
    requires lat.Length0 == L + 2 && lat.Length1 == L + 2 && L >= 1
    requires rates.Length == 6 && prob.Length == 6 && prob != rates
    requires forall i :: 0 <= i < 6 ==> rates[i] >= 0.0
    requires ValidDraws(draws) && 0 <= n < |draws| && draws[n].0 > 0.0
    requires Evolve(Empty(L), L, rates[..], draws[..n]) == Some(Snapshot(lat))
    modifies lat, prob
    ensures Evolve(Empty(L), L, rates[..], draws[..n + 1]) == Some(Snapshot(lat))
    ensures coverage == Coverage(Snapshot(lat), L)
  {
    StepSucceeds(Snapshot(lat), L, rates[..], draws[n].0, draws[n].1);
    EvolveExtend(Empty(L), L, rates[..], draws, n);
    var ok := Step(lat, L, rates, prob, draws[n].0, draws[n].1);
    coverage := Coverage(Snapshot(lat), L);
  }

  /** The run loop: step number run, then its coverage into results[run],
      for every run. */
  method RunLoop(lat: array2<int>, L: int, rates: array<real>, prob: array<real>, results: array<real>,
                 draws: seq<(real, real)>)
    requires lat.Length0 == L + 2 && lat.Length1 == L + 2 && L >= 1
    requires rates.Length == 6 && prob.Length == 6 && results.Length == |draws|
    requires results != prob && results != rates && prob != rates
    requires forall i :: 0 <= i < 6 ==> rates[i] >= 0.0
    requires ValidDraws(draws) && forall i :: 0 <= i < |draws| ==> draws[i].0 > 0.0
    requires Snapshot(lat) == Empty(L)
    modifies lat, prob, results
    ensures forall run :: 0 <= run < |draws| ==> results[run] == CoverageAt(L, rates[..], draws, run)
  {
    ghost var r := rates[..];
    ghost var cs := seq(|draws|, k requires 0 <= k < |draws| => CoverageAt(L, r, draws, k));
    assert draws[..0] == [];
    for run := 0 to |draws|
      invariant rates[..] == r
      invariant Evolve(Empty(L), L, r, draws[..run]) == Some(Snapshot(lat))
      invariant forall k :: 0 <= k < run ==> results[k] == cs[k]
    {
      RunStep(lat, L, rates, prob, results, draws, run, r, cs);
    }
  }

  /** One pass of the run loop: step number run, then record its coverage. */
  method RunStep(lat: array2<int>, L: int, rates: array<real>, prob: array<real>, results: array<real>,
                 draws: seq<(real, real)>, run: int, ghost r: seq<real>, ghost cs: seq<real>)
    requires lat.Length0 == L + 2 && lat.Length1 == L + 2 && L >= 1
    requires rates.Length == 6 && prob.Length == 6 && results.Length == |draws|
    requires results != prob && results != rates && prob != rates
    requires forall i :: 0 <= i < 6 ==> rates[i] >= 0.0
    requires ValidDraws(draws) && 0 <= run < |draws| && draws[run].0 > 0.0
    requires rates[..] == r && |cs| == |draws| && cs[run] == CoverageAt(L, r, draws, run)
    requires Evolve(Empty(L), L, r, draws[..run]) == Some(Snapshot(lat))
    requires forall k :: 0 <= k < run ==> results[k] == cs[k]
    modifies lat, prob, results
    ensures rates[..] == r
    ensures Evolve(Empty(L), L, r, draws[..run + 1]) == Some(Snapshot(lat))
    ensures forall k :: 0 <= k < run + 1 ==> results[k] == cs[k]
  {
    var coverage := Advance(lat, L, rates, prob, draws, run);
    Record(results, run, coverage, cs);
  }

  /** results[run] := coverage, keeping the entries already recorded. */
  method Record(results: array<real>, run: int, coverage: real, ghost cs: seq<real>)
    requires 0 <= run < results.Length && |cs| == results.Length && coverage == cs[run]
    requires forall k :: 0 <= k < run ==> results[k] == cs[k]
    modifies results
    ensures forall k :: 0 <= k < run + 1 ==> results[k] == cs[k]
  {
    results[run] := coverage;
  }

  /** The driver: builds the rate table, starts from the empty lattice and
      runs one step per pair of draws, recording the coverage after each
      step in results. */
  method Run(numRuns: nat, L: int, ra: real, rd: real, alpha: real, draws: seq<(real, real)>)
    returns (results: array<real>)
    requires L >= 1 && ra >= 0.0 && rd >= 0.0 && alpha >= 0.0
    requires |draws| == numRuns && ValidDraws(draws)
    requires forall i :: 0 <= i < |draws| ==> draws[i].0 > 0.0
    ensures results.Length == numRuns
    ensures forall run :: 0 <= run < numRuns ==> results[run] == CoverageAt(L, RateTable(ra, rd, alpha), draws, run)
  {
    var rates := BuildRates(ra, rd, alpha);
    RatesNonNegative(ra, rd, alpha);
    var lat := NewLattice(L);
    var prob := new real[6](_ => 0.0);
    results := new real[numRuns](_ => 0.0);
    RunLoop(lat, L, rates, prob, results, draws);
  }
}
