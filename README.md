# Kinetic Monte Carlo of sodium absorption and desorption on a foil

This project models the simulation loop of `kmc.py`. The program is a kinetic Monte Carlo
simulation of sodium atoms absorbing onto, and desorbing from, an L x L foil with periodic
boundaries. Each step does the following:

1. Classify every physical site into one of six buckets.
2. Weigh each bucket by its size times its rate.
3. Pick an event class with a uniform draw `rand`.
4. Pick a site of that class with a second draw `u`.
5. Set the site to 1 (absorption) or 0 (desorption) and mirror the write into the ghost border.
6. Record the fractional coverage.

The model is imperative, like the script. The lattice is an `array2<int>` of size (L+2) x (L+2).
The counts, rates, probabilities and results are arrays, and the site lists are an
`array<seq<Site>>`. Every loop of the script is a `while`/`for` loop with invariants.

Each method is proved against a specification function on values:

- `Grid` is the lattice contents at one moment (`Snapshot`).
- `Counts` and `Bucket` give the classification.
- `TotalOf` and `Probs` give the total rate and the cumulative table.
- `Choose` and `PickIndex` give the selection.
- `SetSite` gives the write with its mirrors.
- `Occupied` and `Coverage` give the coverage of a lattice.
- `StepSpec` gives one step, and `Evolve` and `CoverageAt` give a whole run.

The lemmas state the properties of these functions.

The modules follow the script's stages:

| module | stage |
|---|---|
| `rates.dfy` (`Rates`) | rate table |
| `lattice.dfy` (`Lattice`) | lattice, ghost border, update, coverage |
| `classifier.dfy` (`Classifier`) | site classification |
| `selector.dfy` (`Selector`) | total rate, cumulative probabilities, class and index selection |
| `kmc.dfy` (`Kmc`) | one step and the run loop |

Rates and probabilities are `real`, so arithmetic is exact. The random draws are parameters: a
run is driven by a sequence of `(rand, u)` pairs, one per step.

Classification follows the code. An occupied site with k occupied neighbours goes into bucket k
(`kmc.py:48-49`), not bucket k + 1. Consequences:

- Occupied sites without neighbours share bucket 0 with the empty sites.
- Bucket 5 is never filled.
- `rates[i]` for i >= 1 applies to sites with exactly i neighbours.
- An "absorption" on an occupied isolated site writes a 1 over a 1. That step changes nothing
  when L >= 2.

## Model

| member | source | states |
|---|---|---|
| Rates.BuildRates | kmc.py:13-21 | the table has 6 entries, `rates[0] == ra`, `rates[i] == rd * alpha^(i-1)` for i in 1..5 |
| Rates.RatesNonNegative | kmc.py:13-21 | with ra, rd, alpha >= 0 every entry of the table is >= 0 |
| Rates.RatesGeometric | kmc.py:19-21 | `rates[1] == rd` and each further neighbour multiplies the desorption rate by alpha |
| Rates.NoInteractionUniformDesorption | kmc.py:19-21 | with alpha = 1 all five desorption rates equal rd |
| Lattice.Empty | kmc.py:24-26 | the initial zero lattice has the padded shape, is 0/1, satisfies the ghost invariant and is 0 everywhere |
| Lattice.NeighbourSum | kmc.py:42-47 | on a 0/1 lattice the four-neighbour sum lies in 0..4 |
| Lattice.NeighbourSumIsPeriodic | kmc.py:42-47 | under the ghost invariant the neighbour sum read through the border equals the sum on the torus of side L |
| Lattice.MirroredIsPeriodic | kmc.py:75-84 | the ghost invariant holds iff every non-corner cell holds the value of the physical site it stands for on the torus |
| Lattice.Apply | kmc.py:73-84 | the array after the write is `SetSite` of the array before: the site and, per axis, its far-side ghost copy (if x == 1 … elif x == L) get v, nothing else changes |
| Lattice.SetSiteInterior | kmc.py:73-84 | among the physical sites only the chosen site changes |
| Lattice.WrittenIsTorusClass | kmc.py:76-84 | for L >= 2 the written cells are exactly the non-corner cells standing for the site on the torus; corners are never written |
| Lattice.SetSitePreserves | kmc.py:73-84 | for L >= 2 a 0/1 write keeps the lattice 0/1 and keeps the ghost invariant |
| Lattice.SetSiteBinary | kmc.py:73-84 | a 0/1 write keeps the lattice 0/1 for every L |
| Lattice.SetSiteSameValue | kmc.py:73-84 | under the ghost invariant, writing the value a site already holds leaves the lattice unchanged |
| Lattice.SingleSiteBreaksMirror | kmc.py:76-79 | with L = 1 the `elif` never refreshes ghost row 0: one absorption on the empty lattice breaks the ghost invariant |
| Lattice.OccupiedAfterSetSite | kmc.py:112 | the occupied count after a write is the old count minus the site's old value plus the new one (ghost cells do not count) |
| Lattice.Occupied | kmc.py:112 | the sum over the interior slice (ghost cells excluded) lies in 0..L² on a 0/1 lattice |
| Lattice.Coverage | kmc.py:112 | the occupied count over L², which lies in [0, 1] on a 0/1 lattice |
| Lattice.CoverageEmpty | kmc.py:112 | coverage is 0 when every physical site is empty |
| Lattice.CoverageFull | kmc.py:112 | coverage is 1 when every physical site is occupied |
| Lattice.CoverageChange | kmc.py:112 | occupied counts that differ by at most 1 give coverages that differ by at most 1/L² |
| Classifier.Classify | kmc.py:33-49 | after the double loop `num_times == Counts` and `sites[k] == Bucket(k)` for each of the six buckets |
| Classifier.ScanRow | kmc.py:37-49 | the inner loop appends exactly row i's sites, in order, each to its bucket, keeping `num_times[k] == len(sites[k])` |
| Classifier.ScanSite | kmc.py:38-49 | one site: an empty site is appended to bucket 0, an occupied one to the bucket of its neighbour count, and that bucket's count is incremented |
| Classifier.ScanRows | kmc.py:36-49 | the outer loop over rows 1..L, started from empty lists and zero counts, builds the lists of the full scan, keeping `num_times[k] == len(sites[k])` |
| Classifier.ScanMembers | kmc.py:36-49 | when the scan reaches (i, j), list k holds exactly the physical sites before (i, j) in row-major order whose class is k |
| Classifier.ScanSizes | kmc.py:36-49 | on a 0/1 lattice every scanned site lands in some list: the six lists hold (i-1)*L + (j-1) sites when the scan reaches (i, j) |
| Classifier.ScanOrdered | kmc.py:36-40 | every list the scan builds is in row-major order |
| Classifier.BucketMembership | kmc.py:38-49 | bucket 0 holds exactly the empty sites and the occupied sites with 0 neighbours; bucket k >= 1 exactly the occupied sites with neighbour sum k |
| Classifier.ExactlyOneBucket | kmc.py:36-49 | on a 0/1 lattice every physical site is in some bucket 0..4 and in no other |
| Classifier.BucketFiveEmpty | kmc.py:48-49 | bucket 5 is always empty |
| Classifier.CountsSum | kmc.py:36-49 | the six counts add up to L² |
| Classifier.BucketInScanOrder | kmc.py:36-40 | each site list is strictly in row-major order, so no site is listed twice |
| Selector.TotalRate | kmc.py:52-54 | the accumulator loop returns `TotalOf`, Σ num_times[i] * rates[i] |
| Selector.TotalZeroIff | kmc.py:52-54 | with non-negative weights the total is >= 0, and it is 0 iff every weight is 0 |
| Selector.FillProb | kmc.py:56-59 | the recurrence loop writes exactly `Probs`: prob[0] = w0/total, prob[i+1] = prob[i] + w(i+1)/total |
| Selector.CumProbClosedForm | kmc.py:57-59 | prob[i] equals the partial sum of weights 0..i divided by the total |
| Selector.ProbsShape | kmc.py:57-59 | with non-negative weights and total = Σ weights ≠ 0 the table is non-decreasing, prob[0] >= 0 and prob[5] == 1 exactly |
| Selector.ProbsWidth | kmc.py:57-59 | interval i of the table has width w_i/total (prob[0] itself is w_0/total) |
| Selector.Choose | kmc.py:65-89 | any selected class lies in 0..5 |
| Selector.LastMatch | kmc.py:88-89 | a match among classes 1..n lies in 1..n |
| Selector.LastMatchExact | kmc.py:88-89 | on a non-decreasing table class j is the match iff prob[j-1] < rand <= prob[j] |
| Selector.ChooseExact | kmc.py:65-89 | on a non-decreasing table class 0 is chosen iff rand <= prob[0], and class j >= 1 iff prob[j-1] < rand <= prob[j] |
| Selector.ChooseDefined | kmc.py:65-89 | when rand <= prob[5] some class is chosen |
| Selector.ChosenHasWeight | kmc.py:52-89 | for 0 < rand <= 1 a class is chosen, and the chosen class has positive weight and at least one site |
| Selector.ZeroDrawSelectsEmptyClass | kmc.py:62-65 | the draw rand = 0 with prob[0] = 0 still selects class 0, whose weight is 0 |
| Selector.PickIndex | kmc.py:66-69 | for n >= 1 the index lies in [0, n-1] and brackets u*n; for n = 0 it is -1 (the failing list lookup) |
| Selector.PickIndexUniform | kmc.py:66-69 | for u < 1 the index is k iff k/n <= u < (k+1)/n, so every site has an equal share of the draw |
| Selector.PickIndexClamp | kmc.py:67-68 | u = 1 is clamped to the last index n-1 |
| Selector.TotalOfFirstOnly | kmc.py:52-54 | when only bucket 0 has sites the total rate is bucket 0's weight |
| Kmc.Event | kmc.py:57-89 | the class selected for a lattice and draw lies in 0..5 |
| Kmc.Flipped | kmc.py:66-73 | a class's event yields a lattice iff its bucket has at least one site |
| Kmc.Flip | kmc.py:66-84 | index pick and write: on success the array is `Flipped`, on an empty bucket nothing changes and the failure is reported |
| Kmc.Desorb | kmc.py:88-108 | the desorption loop leaves the lattice as the unique matching interval's flip dictates (unchanged when none matches) |
| Kmc.NoEarlierMatch | kmc.py:88-89 | on a non-decreasing table a match at interval i rules out any earlier match |
| Kmc.Step | kmc.py:33-108 | one iteration changes the lattice exactly as `StepSpec`; failure (an empty selected bucket) is reported exactly when `StepSpec` fails; `prob` ends as `Probs` of the old lattice when the total is non-zero and is untouched when it is 0 |
| Kmc.Select | kmc.py:56-108 | with a non-zero total: fill the table, then the absorption branch or the desorption loop, with the same outcome as `StepSpec`; `prob` ends as `Probs` of the old lattice's counts |
| Kmc.ProbsTrackSites | kmc.py:57-59 | every interval of positive width belongs to a bucket with at least one site |
| Kmc.StepCases | kmc.py:57-89 | a step is no event (total 0), the absorption branch (rand <= prob[0]) or the desorption loop |
| Kmc.StepKeepsBinary | kmc.py:33-108 | a step keeps the lattice 0/1 |
| Kmc.StepKeepsMirror | kmc.py:73-108 | for L >= 2 a step keeps the ghost invariant |
| Kmc.StepSucceeds | kmc.py:52-93 | with non-negative rates and rand > 0 the selected bucket is never empty |
| Kmc.StepOccupancy | kmc.py:73-108 | the occupied count: unchanged without event, one less after desorption, one more or unchanged after absorption; an unchanged absorption (L >= 2) leaves the whole lattice unchanged |
| Kmc.CoverageStep | kmc.py:112 | coverage moves by at most 1/L² per step |
| Kmc.ZeroRatesNoEvent | kmc.py:52-87 | with all rates 0 the step changes nothing |
| Kmc.EmptyCounts | kmc.py:24-49 | on the initial lattice bucket 0 holds all L² sites and the others are empty |
| Kmc.FirstStepAbsorbs | kmc.py:57-73 | from the empty lattice with ra > 0 and 0 < rand <= 1 the event is absorption and exactly one site becomes occupied |
| Kmc.Evolve | kmc.py:31-108 | every lattice a run reaches is shaped and 0/1 |
| Kmc.EvolveSucceeds | kmc.py:31-108 | with non-negative rates and positive class draws no step of a run fails |
| Kmc.EvolveMirrored | kmc.py:73-108 | for L >= 2 every lattice a run reaches from the empty lattice satisfies the ghost invariant |
| Kmc.RecordedCoverageStep | kmc.py:112-113 | consecutive entries of results differ by at most 1/L² |
| Kmc.CoverageAtBounded | kmc.py:112-113 | every recorded coverage lies in [0, 1] |
| Kmc.NewLattice | kmc.py:24-26 | the fresh lattice array holds `Empty(L)` |
| Kmc.Advance | kmc.py:31-112 | one loop iteration extends the run by one step and returns the coverage of the new lattice |
| Kmc.Record | kmc.py:113 | results[run] receives the coverage and earlier entries are kept |
| Kmc.RunStep | kmc.py:31-113 | one iteration: step, then record, keeping the loop invariant |
| Kmc.RunLoop | kmc.py:31-113 | after the loop results[run] is the coverage after step run of the draw-driven run, for every run |
| Kmc.Run | kmc.py:13-113 | results has num_runs entries and results[run] == CoverageAt(run): the occupied count over L² after the first run + 1 steps |

## Left out

- The plotting at the end of `kmc.py` (lines 115-122) is matplotlib output and is left out. `main.py` is a battery-cycling script that calls an external library and is not part of this model.
- `np.random.random()` at lines 62, 66 and 90 is not modelled as a random source. The draws come in as parameters, and reproducibility under a seed is out of scope.
- Floating-point rounding is left out. Probabilities are exact reals, so `prob[5] == 1` exactly. In float64 the last entry can fall just below 1, and a draw above it would select no event.
- The NumPy lattice holds float64 zeros and ones. It is modelled as `int`, and the `int(...)` cast on the neighbour sum is the identity.
- Kmc.Step: a total rate of 0 divides 0/0 and fills `prob` with NaN. Neither `rand <= prob[0]` nor `rand > prob[0]` then holds, so no event happens. The model takes the same no-event branch without writing NaN into `prob`, so `prob` keeps its old contents. `Selector.FillProb` itself requires a non-zero total.
- Kmc.Flip: picking from an empty bucket makes `temp` equal -1. The source's list lookup then raises IndexError. The model reports this as a failed step (`ok == false`), and `Kmc.Evolve` becomes None. `Kmc.CoverageAt` records 0 for steps after a failure, whereas the source would have stopped.
- Kmc.Run: requires every class draw `rand` to be > 0. NumPy can return 0.0, and with `prob[0] == 0` that draw selects the possibly empty bucket 0 (`Selector.ZeroDrawSelectsEmptyClass`). Under this precondition `Kmc.EvolveSucceeds` shows that no step of a run fails.
- Kmc.StepKeepsMirror: holds only for L >= 2. With L = 1 the `if x == 1 … elif x == length` never refreshes ghost row 0 or column 0 (`Lattice.SingleSiteBreaksMirror`). The driver accepts L >= 1 and its results postcondition holds for every L >= 1, but the periodic reading of the neighbour sum needs L >= 2.
- Selector.PickIndex: allows the site draw u = 1, where the source's draw is in [0, 1). This exercises the clamp at lines 67-68 and 91-92. The bracket `idx <= u*n < idx+1` is stated for u < 1 only.
- The desorption loop at lines 88-108 is modelled as written: it tests every interval and flips for each match. The proof shows that on the non-decreasing table at most one interval matches.
- The rate table's loop (lines 19-21) gives bucket i the rate for i - 1 neighbours. The classifier (lines 48-49) puts a site with k neighbours in bucket k. The model follows the code as written, so an occupied site with k >= 1 neighbours desorbs at rd * alpha^(k-1), and an occupied site with no neighbour is weighted with the absorption rate.
