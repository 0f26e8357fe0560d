/** The event classifier: one full pass over the L x L physical sites that
    puts every site into one of six buckets and counts the bucket sizes. */
module Classifier {
  import opened Lattice

  /** The bucket the scan puts a physical site in: 0 for an empty site and,
      for an occupied site, its number of occupied neighbours. An occupied
      site without neighbours therefore shares bucket 0 with the empty sites.
      A cell holding neither 0 nor 1 fails both tests of the scan and is put
      in no bucket (-1). */
  ghost function ClassOf(g: Grid, L: int, i: int, j: int): int
    requires Shaped(g, L) && Interior(L, (i, j))
  {
    if g[i][j] == 0 then 0
    else if g[i][j] == 1 then NeighbourSum(g, L, i, j)
    else -1
  }

  /** The six site lists the row-major scan has built when it reaches site
      (i, j): every site before (i, j) has been appended to its bucket. */
  ghost function Scan(g: Grid, L: int, i: int, j: int): (lists: seq<seq<Site>>)
    requires Shaped(g, L) && 1 <= i <= L + 1 && 1 <= j <= L + 1 && (i <= L || j == 1)
    ensures |lists| == 6
    decreases i, j
  {
    if j > 1 then
      var prev := Scan(g, L, i, j - 1);
      var c := ClassOf(g, L, i, j - 1);
      if 0 <= c < 6 then prev[c := prev[c] + [(i, j - 1)]] else prev
    else if i > 1 then
      Scan(g, L, i - 1, L + 1)
    else
      seq(6, _ => [])
  }

  /** The site list of bucket k after the full scan. */
  ghost function Bucket(g: Grid, L: int, k: int): seq<Site>
    requires Shaped(g, L) && 0 <= k < 6
  {
    Scan(g, L, L + 1, 1)[k]
  }

  /** The six bucket sizes after the full scan. */
  ghost function Counts(g: Grid, L: int): (c: seq<int>)
    requires Shaped(g, L)
    ensures |c| == 6
    ensures forall k :: 0 <= k < 6 ==> c[k] == |Bucket(g, L, k)|
  {
    seq(6, k requires 0 <= k < 6 => |Bucket(g, L, k)|)
  }

  /** Site s comes before site t in the row-major scan. */
  predicate ScannedBefore(s: Site, t: Site) {
    s.0 < t.0 || (s.0 == t.0 && s.1 < t.1)
  }

  /** Scans row i: appends each site (i, 1..L) to its bucket's list and
      counts it. */
  method ScanRow(lat: array2<int>, L: int, i: int, numTimes: array<int>, sites: array<seq<Site>>, ghost g: Grid)
    requires lat.Length0 == L + 2 && lat.Length1 == L + 2 && 1 <= i <= L
    requires g == Snapshot(lat) && Binary(g)
    requires numTimes.Length == 6 && sites.Length == 6
    requires sites[..] == Scan(g, L, i, 1)
    requires forall k :: 0 <= k < 6 ==> numTimes[k] == |sites[k]|
    modifies numTimes, sites
    ensures sites[..] == Scan(g, L, i, L + 1)
    ensures forall k :: 0 <= k < 6 ==> numTimes[k] == |sites[k]|
  {
    var j := 1;
    while j <= L
      invariant 1 <= j <= L + 1
      invariant sites[..] == Scan(g, L, i, j)
      invariant forall k :: 0 <= k < 6 ==> numTimes[k] == |sites[k]|
    {
      ScanSite(lat, L, i, j, numTimes, sites, g);
      j := j + 1;
    }
  }

  /** Classifies site (i, j): an empty site goes to bucket 0, an occupied
      one to the bucket of its neighbour count. */
  method ScanSite(lat: array2<int>, L: int, i: int, j: int, numTimes: array<int>, sites: array<seq<Site>>, ghost g: Grid)
    requires lat.Length0 == L + 2 && lat.Length1 == L + 2 && 1 <= i <= L && 1 <= j <= L
    requires g == Snapshot(lat) && Binary(g)
    requires numTimes.Length == 6 && sites.Length == 6
    requires sites[..] == Scan(g, L, i, j)
    requires forall k :: 0 <= k < 6 ==> numTimes[k] == |sites[k]|
    modifies numTimes, sites
    ensures sites[..] == Scan(g, L, i, j + 1)
    ensures forall k :: 0 <= k < 6 ==> numTimes[k] == |sites[k]|
  {
    if lat[i, j] == 0 {
      numTimes[0] := numTimes[0] + 1;
      sites[0] := sites[0] + [(i, j)];
    } else if lat[i, j] == 1 {
      var n := lat[i - 1, j] + lat[i + 1, j] + lat[i, j - 1] + lat[i, j + 1];
      assert n == NeighbourSum(g, L, i, j);
      numTimes[n] := numTimes[n] + 1;
      sites[n] := sites[n] + [(i, j)];
    }
  }

  /** The outer loop of the scan: rows 1..L in turn. */
  method ScanRows(lat: array2<int>, L: int, numTimes: array<int>, sites: array<seq<Site>>, ghost g: Grid)
    requires lat.Length0 == L + 2 && lat.Length1 == L + 2 && L >= 1
    requires g == Snapshot(lat) && Binary(g)
    requires numTimes.Length == 6 && sites.Length == 6
    requires forall k :: 0 <= k < 6 ==> numTimes[k] == 0 && sites[k] == []
    modifies numTimes, sites
    ensures sites[..] == Scan(g, L, L + 1, 1)
    ensures forall k :: 0 <= k < 6 ==> numTimes[k] == |sites[k]|
  {
    var i := 1;
    while i <= L
      invariant 1 <= i <= L + 1
      invariant sites[..] == Scan(g, L, i, 1)
      invariant forall k :: 0 <= k < 6 ==> numTimes[k] == |sites[k]|
    {
      ScanRow(lat, L, i, numTimes, sites, g);
      i := i + 1;
    }
  }

  /** Classification of the current lattice: for each bucket its size and
      its site list, built by a row-major scan of the physical sites. */
  method Classify(lat: array2<int>, L: int) returns (numTimes: array<int>, sites: array<seq<Site>>)
    requires lat.Length0 == L + 2 && lat.Length1 == L + 2 && L >= 1
    requires Binary(Snapshot(lat))
    ensures numTimes.Length == 6 && sites.Length == 6
    ensures numTimes[..] == Counts(Snapshot(lat), L)
    ensures forall k :: 0 <= k < 6 ==> sites[k] == Bucket(Snapshot(lat), L, k)
  {
    ghost var g := Snapshot(lat);
    sites := new seq<Site>[6](_ => []);
    numTimes := new int[6](_ => 0);
    ScanRows(lat, L, numTimes, sites, g);
    forall k | 0 <= k < 6
      ensures sites[k] == Bucket(g, L, k) && numTimes[k] == Counts(g, L)[k]
    {
    }
  }

  /** When the scan reaches (i, j), bucket k's list holds exactly the
      physical sites before (i, j) whose class is k. */
  lemma {:induction false} ScanMembers(g: Grid, L: int, i: int, j: int, k: int, s: Site)
    requires Shaped(g, L) && 1 <= i <= L + 1 && 1 <= j <= L + 1 && (i <= L || j == 1) && 0 <= k < 6
    ensures s in Scan(g, L, i, j)[k] <==>
      Interior(L, s) && ScannedBefore(s, (i, j)) && ClassOf(g, L, s.0, s.1) == k
    decreases i, j
  {
    if j > 1 {
      ScanMembers(g, L, i, j - 1, k, s);
    } else if i > 1 {
      ScanMembers(g, L, i - 1, L + 1, k, s);
    }
  }

  /** Bucket 0 holds exactly the empty sites and the occupied sites with no
      occupied neighbour; bucket k >= 1 holds exactly the occupied sites with
      k occupied neighbours. */
  lemma BucketMembership(g: Grid, L: int, k: int, s: Site)
    requires Shaped(g, L) && 0 <= k < 6
    ensures s in Bucket(g, L, k) <==>
      Interior(L, s) &&
      if k == 0 then
        g[s.0][s.1] == 0 || (g[s.0][s.1] == 1 && NeighbourSum(g, L, s.0, s.1) == 0)
      else
        g[s.0][s.1] == 1 && NeighbourSum(g, L, s.0, s.1) == k
  {
    ScanMembers(g, L, L + 1, 1, k, s);
  }

  /** On a binary lattice every physical site lies in exactly one bucket
      among 0..4. */
  lemma ExactlyOneBucket(g: Grid, L: int, s: Site)
    requires Shaped(g, L) && Binary(g) && Interior(L, s)
    ensures exists k :: 0 <= k < 5 && s in Bucket(g, L, k)
    ensures forall k, k' :: 0 <= k < k' < 6 && s in Bucket(g, L, k) ==> s !in Bucket(g, L, k')
  {
    var c := ClassOf(g, L, s.0, s.1);
    ScanMembers(g, L, L + 1, 1, c, s);
    assert 0 <= c < 5 && s in Bucket(g, L, c);
    forall k, k' | 0 <= k < k' < 6 && s in Bucket(g, L, k)
      ensures s !in Bucket(g, L, k')
    {
      ScanMembers(g, L, L + 1, 1, k, s);
      ScanMembers(g, L, L + 1, 1, k', s);
    }
  }

  /** No site has five occupied neighbours, so bucket 5 stays empty. */
  lemma BucketFiveEmpty(g: Grid, L: int)
    requires Shaped(g, L) && Binary(g)
    ensures Bucket(g, L, 5) == []
  {
    if Bucket(g, L, 5) != [] {
      var s := Bucket(g, L, 5)[0];
      ScanMembers(g, L, L + 1, 1, 5, s);
      assert false;
    }
  }

  /** On a binary lattice every scanned site lands in some list: when the
      scan reaches (i, j) the six lists hold (i - 1) * L + (j - 1) sites. */
  lemma {:induction false} ScanSizes(g: Grid, L: int, i: int, j: int)
    requires Shaped(g, L) && Binary(g) && 1 <= i <= L + 1 && 1 <= j <= L + 1 && (i <= L || j == 1)
    ensures |Scan(g, L, i, j)[0]| + |Scan(g, L, i, j)[1]| + |Scan(g, L, i, j)[2]|
          + |Scan(g, L, i, j)[3]| + |Scan(g, L, i, j)[4]| + |Scan(g, L, i, j)[5]| == (i - 1) * L + (j - 1)
    decreases i, j
  {
    if j > 1 {
      ScanSizes(g, L, i, j - 1);
      assert 0 <= ClassOf(g, L, i, j - 1) <= 4;
    } else if i > 1 {
      ScanSizes(g, L, i - 1, L + 1);
      assert (i - 2) * L + L == (i - 1) * L;
    }
  }

  /** On a binary lattice the six bucket sizes add up to L^2. */
  lemma CountsSum(g: Grid, L: int)
    requires Shaped(g, L) && Binary(g)
    ensures Counts(g, L)[0] + Counts(g, L)[1] + Counts(g, L)[2]
          + Counts(g, L)[3] + Counts(g, L)[4] + Counts(g, L)[5] == L * L
  {
    ScanSizes(g, L, L + 1, 1);
  }

  /** Every list the scan builds is in scan order. */
  lemma {:induction false} ScanOrdered(g: Grid, L: int, i: int, j: int, k: int)
    requires Shaped(g, L) && 1 <= i <= L + 1 && 1 <= j <= L + 1 && (i <= L || j == 1) && 0 <= k < 6
    ensures forall p, q :: 0 <= p < q < |Scan(g, L, i, j)[k]| ==>
      ScannedBefore(Scan(g, L, i, j)[k][p], Scan(g, L, i, j)[k][q])
    decreases i, j
  {
    if j > 1 {
      ScanOrdered(g, L, i, j - 1, k);
      var prev := Scan(g, L, i, j - 1)[k];
      if ClassOf(g, L, i, j - 1) == k {
        var cur := prev + [(i, j - 1)];
        assert Scan(g, L, i, j)[k] == cur;
        forall p, q | 0 <= p < q < |cur|
          ensures ScannedBefore(cur[p], cur[q])
        {
          if q == |prev| {
            ScanMembers(g, L, i, j - 1, k, prev[p]);
          }
        }
      }
    } else if i > 1 {
      ScanOrdered(g, L, i - 1, L + 1, k);
    }
  }

  /** Each site list is in scan order, so no site is listed twice. */
  lemma BucketInScanOrder(g: Grid, L: int, k: int)
    requires Shaped(g, L) && 0 <= k < 6
    ensures forall p, q :: 0 <= p < q < |Bucket(g, L, k)| ==>
      ScannedBefore(Bucket(g, L, k)[p], Bucket(g, L, k)[q]) && Bucket(g, L, k)[p] != Bucket(g, L, k)[q]
  {
    ScanOrdered(g, L, L + 1, 1, k);
  }
}
