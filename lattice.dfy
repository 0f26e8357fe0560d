/** The lattice of the simulation: an (L+2) x (L+2) grid of occupancy values
    (0 = empty, 1 = occupied). Rows and columns 1..L are the physical sites;
    row/column 0 and L+1 are ghost copies of row/column L and 1, so that a
    neighbour lookup at the edge reads the opposite edge (periodic boundary).

    The simulation keeps the lattice in an `array2<int>` and writes it in
    place; the specification functions below work on a `Grid`, the value of
    that array at one moment (`Snapshot`). */
module Lattice {

  /** The lattice contents, row by row. */
  type Grid = seq<seq<int>>

  /** A lattice coordinate (row, column). */
  type Site = (int, int)

  /** g has the padded shape of a lattice of side L >= 1. */
  ghost predicate Shaped(g: Grid, L: int) {
    L >= 1 && |g| == L + 2 && forall r :: 0 <= r < |g| ==> |g[r]| == L + 2
  }

  /** Every cell, ghost or not, holds 0 or 1. */
  ghost predicate Binary(g: Grid) {
    forall r, c :: 0 <= r < |g| && 0 <= c < |g[r]| ==> g[r][c] == 0 || g[r][c] == 1
  }

  /** s is one of the L x L physical sites. */
  predicate Interior(L: int, s: Site) {
    1 <= s.0 <= L && 1 <= s.1 <= L
  }

  /** The ghost invariant: ghost row 0 equals row L, ghost row L+1 equals
      row 1, and likewise for the columns. Corner cells are not constrained. */
  ghost predicate Mirrored(g: Grid, L: int)
    requires Shaped(g, L)
  {
    forall t :: 1 <= t <= L ==>
      g[0][t] == g[L][t] && g[L + 1][t] == g[1][t] &&
      g[t][0] == g[t][L] && g[t][L + 1] == g[t][1]
  }

  /** The physical coordinate in 1..L that coordinate k stands for on a
      torus of side L. */
  function Torus(L: int, k: int): int
    requires L >= 1
  {
    (k - 1) % L + 1
  }

  /** A cell of the padded grid that is not one of its four corners. */
  predicate NonCorner(L: int, a: int, b: int) {
    0 <= a <= L + 1 && 0 <= b <= L + 1 &&
    !((a == 0 || a == L + 1) && (b == 0 || b == L + 1))
  }

  lemma TorusValues(L: int, k: int)
    requires L >= 1 && 0 <= k <= L + 1
    ensures Torus(L, k) == if k == 0 then L else if k == L + 1 then 1 else k
  {
    if k == 0 {
      assert -1 == (-1) * L + (L - 1);
    } else if k == L + 1 {
      assert L == 1 * L + 0;
    } else {
      assert k - 1 == 0 * L + (k - 1);
    }
  }

  /** The ghost invariant says exactly that every non-corner cell holds the
      value of the physical site it stands for on the torus. */
  lemma MirroredIsPeriodic(g: Grid, L: int)
    requires Shaped(g, L)
    ensures Mirrored(g, L) <==>
      forall a, b :: NonCorner(L, a, b) ==> g[a][b] == g[Torus(L, a)][Torus(L, b)]
  {
    forall a, b | NonCorner(L, a, b)
      ensures Torus(L, a) == (if a == 0 then L else if a == L + 1 then 1 else a)
      ensures Torus(L, b) == (if b == 0 then L else if b == L + 1 then 1 else b)
    {
      TorusValues(L, a);
      TorusValues(L, b);
    }
    if Mirrored(g, L) {
      forall a, b | NonCorner(L, a, b)
        ensures g[a][b] == g[Torus(L, a)][Torus(L, b)]
      {
      }
    }
    if forall a, b :: NonCorner(L, a, b) ==> g[a][b] == g[Torus(L, a)][Torus(L, b)] {
      forall t | 1 <= t <= L
        ensures g[0][t] == g[L][t] && g[L + 1][t] == g[1][t]
        ensures g[t][0] == g[t][L] && g[t][L + 1] == g[t][1]
      {
        assert NonCorner(L, 0, t) && NonCorner(L, L + 1, t);
        assert NonCorner(L, t, 0) && NonCorner(L, t, L + 1);
      }
    }
  }

  /** The sum of the four orthogonal neighbours of an interior site, read
      through the ghost border. */
  function NeighbourSum(g: Grid, L: int, i: int, j: int): (n: int)
    requires Shaped(g, L) && Interior(L, (i, j))
    ensures Binary(g) ==> 0 <= n <= 4
  {
    g[i - 1][j] + g[i + 1][j] + g[i][j - 1] + g[i][j + 1]
  }

  /** Under the ghost invariant, the neighbour sum read through the border is
      the neighbour sum on the torus of side L. */
  lemma NeighbourSumIsPeriodic(g: Grid, L: int, i: int, j: int)
    requires Shaped(g, L) && Mirrored(g, L) && Interior(L, (i, j))
    ensures NeighbourSum(g, L, i, j) ==
      g[Torus(L, i - 1)][j] + g[Torus(L, i + 1)][j] +
      g[i][Torus(L, j - 1)] + g[i][Torus(L, j + 1)]
  {
    TorusValues(L, i - 1);
    TorusValues(L, i + 1);
    TorusValues(L, j - 1);
    TorusValues(L, j + 1);
  }

  /** The all-empty lattice the simulation starts from. */
  function Empty(L: int): (g: Grid)
    requires L >= 1
    ensures Shaped(g, L) && Binary(g) && Mirrored(g, L)
    ensures forall a, b :: 0 <= a < L + 2 && 0 <= b < L + 2 ==> g[a][b] == 0
  {
    seq(L + 2, a => seq(L + 2, b => 0))
  }

  /** The value of the lattice array at the current moment. */
  function Snapshot(lat: array2<int>): (g: Grid)
    reads lat
    ensures |g| == lat.Length0
    ensures forall a :: 0 <= a < lat.Length0 ==> |g[a]| == lat.Length1
    ensures forall a, b :: 0 <= a < lat.Length0 && 0 <= b < lat.Length1 ==> g[a][b] == lat[a, b]
  {
    seq(lat.Length0, a requires 0 <= a < lat.Length0 reads lat =>
      seq(lat.Length1, b requires 0 <= b < lat.Length1 reads lat => lat[a, b]))
  }

  /** Whether cell (a, b) is written when the simulation sets site (x, y):
      the site itself and, on each axis independently, the ghost copy on the
      far side (`if x == 1 ... elif x == L ...`, then the same for y). */
  predicate Writes(L: int, x: int, y: int, a: int, b: int) {
    (a == x && b == y)
    || (b == y && (if x == 1 then a == L + 1 else x == L && a == 0))
    || (a == x && (if y == 1 then b == L + 1 else y == L && b == 0))
  }

  /** The grid after setting site (x,y) to v together with its ghost copies. */
  function SetSite(g: Grid, L: int, x: int, y: int, v: int): (h: Grid)
    requires Shaped(g, L) && Interior(L, (x, y))
    ensures Shaped(h, L)
    ensures forall a, b :: 0 <= a < L + 2 && 0 <= b < L + 2 ==>
      h[a][b] == if Writes(L, x, y, a, b) then v else g[a][b]
  {
    seq(L + 2, a requires 0 <= a < L + 2 =>
      seq(L + 2, b requires 0 <= b < L + 2 =>
        if Writes(L, x, y, a, b) then v else g[a][b]))
  }

  /** Setting a site changes no other physical site. */
  lemma SetSiteInterior(g: Grid, L: int, x: int, y: int, v: int, i: int, j: int)
    requires Shaped(g, L) && Interior(L, (x, y)) && Interior(L, (i, j))
    ensures SetSite(g, L, x, y, v)[i][j] == if (i, j) == (x, y) then v else g[i][j]
  {
  }

  /** For L >= 2 the written cells are exactly the non-corner cells that
      stand for (x, y) on the torus, so corners are never written. */
  lemma WrittenIsTorusClass(L: int, x: int, y: int)
    requires L >= 2 && Interior(L, (x, y))
    ensures forall a, b :: Writes(L, x, y, a, b) ==> NonCorner(L, a, b)
    ensures forall a, b :: NonCorner(L, a, b) ==>
      (Writes(L, x, y, a, b) <==> Torus(L, a) == x && Torus(L, b) == y)
  {
    forall a, b | NonCorner(L, a, b)
      ensures Writes(L, x, y, a, b) <==> Torus(L, a) == x && Torus(L, b) == y
    {
      TorusValues(L, a);
      TorusValues(L, b);
    }
  }

  /** For L >= 2, setting a site to 0 or 1 keeps the lattice binary and keeps
      the ghost invariant. */
  lemma SetSitePreserves(g: Grid, L: int, x: int, y: int, v: int)
    requires Shaped(g, L) && L >= 2 && Interior(L, (x, y)) && (v == 0 || v == 1)
    requires Binary(g) && Mirrored(g, L)
    ensures Binary(SetSite(g, L, x, y, v))
    ensures Mirrored(SetSite(g, L, x, y, v), L)
  {
    var h := SetSite(g, L, x, y, v);
    forall t | 1 <= t <= L
      ensures h[0][t] == h[L][t] && h[L + 1][t] == h[1][t]
      ensures h[t][0] == h[t][L] && h[t][L + 1] == h[t][1]
    {
    }
  }

  /** Setting a site to 0 or 1 keeps the lattice binary, for any L. */
  lemma SetSiteBinary(g: Grid, L: int, x: int, y: int, v: int)
    requires Shaped(g, L) && Interior(L, (x, y)) && (v == 0 || v == 1) && Binary(g)
    ensures Binary(SetSite(g, L, x, y, v))
  {
  }

  /** Under the ghost invariant (L >= 2), writing the value a site already
      holds changes nothing: its ghost copies hold that value too. */
  lemma SetSiteSameValue(g: Grid, L: int, x: int, y: int, v: int)
    requires Shaped(g, L) && L >= 2 && Interior(L, (x, y)) && Mirrored(g, L)
    requires g[x][y] == v
    ensures SetSite(g, L, x, y, v) == g
  {
    var h := SetSite(g, L, x, y, v);
    forall a | 0 <= a < L + 2
      ensures h[a] == g[a]
    {
      forall b | 0 <= b < L + 2
        ensures h[a][b] == g[a][b]
      {
      }
    }
  }

  /** With L == 1 the `elif` never refreshes ghost row 0 (nor column 0):
      setting the only site of an empty lattice breaks the ghost invariant. */
  lemma SingleSiteBreaksMirror()
    ensures Mirrored(Empty(1), 1)
    ensures !Mirrored(SetSite(Empty(1), 1, 1, 1, 1), 1)
  {
    var h := SetSite(Empty(1), 1, 1, 1, 1);
    assert h[1][1] == 1;
    assert !Writes(1, 1, 1, 0, 1);
    assert h[0][1] == 0;
  }

  /** Occupied sites among (i, 1..m). */
  function RowOccupied(g: Grid, L: int, i: int, m: int): int
    requires Shaped(g, L) && 1 <= i <= L && 0 <= m <= L
  {
    if m == 0 then 0 else RowOccupied(g, L, i, m - 1) + g[i][m]
  }

  /** Occupied sites in rows 1..n. */
  function OccupiedRows(g: Grid, L: int, n: int): int
    requires Shaped(g, L) && 0 <= n <= L
  {
    if n == 0 then 0 else OccupiedRows(g, L, n - 1) + RowOccupied(g, L, n, L)
  }

  lemma {:induction false} RowOccupiedBounds(g: Grid, L: int, i: int, m: int)
    requires Shaped(g, L) && Binary(g) && 1 <= i <= L && 0 <= m <= L
    ensures 0 <= RowOccupied(g, L, i, m) <= m
  {
    if m > 0 {
      RowOccupiedBounds(g, L, i, m - 1);
    }
  }

  lemma {:induction false} OccupiedRowsBounds(g: Grid, L: int, n: int)
    requires Shaped(g, L) && 0 <= n <= L
    ensures Binary(g) ==> 0 <= OccupiedRows(g, L, n) <= n * L
  {
    if n > 0 && Binary(g) {
      OccupiedRowsBounds(g, L, n - 1);
      RowOccupiedBounds(g, L, n, L);
    }
  }

  /** The number of occupied physical sites (the sum over the interior,
      ghost cells excluded); on a binary lattice it lies in 0..L^2. */
  function Occupied(g: Grid, L: int): (n: int)
    requires Shaped(g, L)
    ensures Binary(g) ==> 0 <= n <= L * L
  {
    OccupiedRowsBounds(g, L, L);
    OccupiedRows(g, L, L)
  }

  /** Fractional coverage: occupied physical sites over L^2, which lies in
      [0, 1] on a binary lattice. */
  function Coverage(g: Grid, L: int): (c: real)
    requires Shaped(g, L)
    ensures Binary(g) ==> 0.0 <= c <= 1.0
  {
    assert L * L >= 1 by { assert L * L >= 1 * L; }
    FractionInUnit(Occupied(g, L), L * L);
    Occupied(g, L) as real / (L * L) as real
  }

  lemma FractionInUnit(n: int, d: int)
    requires d >= 1
    ensures 0 <= n <= d ==> 0.0 <= n as real / d as real <= 1.0
  {
    assert n as real / d as real * d as real == n as real;
  }

  lemma {:induction false} RowOccupiedAllEqual(g: Grid, L: int, i: int, m: int, v: int)
    requires Shaped(g, L) && 1 <= i <= L && 0 <= m <= L
    requires forall b :: 1 <= b <= L ==> g[i][b] == v
    ensures RowOccupied(g, L, i, m) == m * v
  {
    if m > 0 {
      RowOccupiedAllEqual(g, L, i, m - 1, v);
    }
  }

  lemma {:induction false} OccupiedRowsAllEqual(g: Grid, L: int, n: int, v: int)
    requires Shaped(g, L) && 0 <= n <= L
    requires forall a, b :: 1 <= a <= L && 1 <= b <= L ==> g[a][b] == v
    ensures OccupiedRows(g, L, n) == n * L * v
  {
    if n > 0 {
      OccupiedRowsAllEqual(g, L, n - 1, v);
      RowOccupiedAllEqual(g, L, n, L, v);
    }
  }

  /** Coverage is 0 when every physical site is empty. */
  lemma CoverageEmpty(g: Grid, L: int)
    requires Shaped(g, L)
    requires forall a, b :: 1 <= a <= L && 1 <= b <= L ==> g[a][b] == 0
    ensures Coverage(g, L) == 0.0
  {
    OccupiedRowsAllEqual(g, L, L, 0);
  }

  /** Coverage is 1 when every physical site is occupied. */
  lemma CoverageFull(g: Grid, L: int)
    requires Shaped(g, L)
    requires forall a, b :: 1 <= a <= L && 1 <= b <= L ==> g[a][b] == 1
    ensures Coverage(g, L) == 1.0
  {
    OccupiedRowsAllEqual(g, L, L, 1);
    assert L * L >= 1 by { assert L * L >= 1 * L; }
    WholeFraction(Occupied(g, L), L * L);
  }

  lemma WholeFraction(n: int, d: int)
    requires d >= 1 && n == d * 1
    ensures n as real / d as real == 1.0
  {
  }

  /** Lattices whose occupied counts differ by at most one site differ in
      coverage by at most 1 / L^2. */
  lemma CoverageChange(g: Grid, h: Grid, L: int)
    requires Shaped(g, L) && Shaped(h, L)
    requires -1 <= Occupied(h, L) - Occupied(g, L) <= 1
    ensures -1.0 / (L * L) as real <= Coverage(h, L) - Coverage(g, L) <= 1.0 / (L * L) as real
  {
    assert L * L >= 1 by { assert L * L >= 1 * L; }
    NeighbouringFractions(Occupied(g, L), Occupied(h, L), L * L);
  }

  lemma NeighbouringFractions(p: int, q: int, d: int)
    requires d >= 1 && -1 <= q - p <= 1
    ensures -1.0 / d as real <= q as real / d as real - p as real / d as real <= 1.0 / d as real
  {
    var n := d as real;
    var a := p as real;
    var b := q as real;
    assert b / n - a / n == (b - a) / n;
    assert (b - a) / n <= 1.0 / n by {
      assert 1.0 / n - (b - a) / n == (1.0 - (b - a)) / n;
    }
    assert -1.0 / n <= (b - a) / n by {
      assert (b - a) / n - (-1.0) / n == ((b - a) + 1.0) / n;
    }
  }

  lemma {:induction false} RowOccupiedChange(g: Grid, h: Grid, L: int, i: int, m: int, y: int)
    requires Shaped(g, L) && Shaped(h, L) && 1 <= i <= L && 0 <= m <= L
    requires forall b :: 1 <= b <= L && b != y ==> h[i][b] == g[i][b]
    ensures RowOccupied(h, L, i, m) ==
      RowOccupied(g, L, i, m) + (if 1 <= y <= m then h[i][y] - g[i][y] else 0)
  {
    if m > 0 {
      RowOccupiedChange(g, h, L, i, m - 1, y);
    }
  }

  lemma {:induction false} OccupiedRowsChange(g: Grid, h: Grid, L: int, n: int, x: int, y: int)
    requires Shaped(g, L) && Shaped(h, L) && 0 <= n <= L && Interior(L, (x, y))
    requires forall a, b :: Interior(L, (a, b)) && (a, b) != (x, y) ==> h[a][b] == g[a][b]
    ensures OccupiedRows(h, L, n) ==
      OccupiedRows(g, L, n) + (if x <= n then h[x][y] - g[x][y] else 0)
  {
    if n > 0 {
      OccupiedRowsChange(g, h, L, n - 1, x, y);
      if n == x {
        RowOccupiedChange(g, h, L, n, L, y);
      } else {
        RowOccupiedChange(g, h, L, n, L, 0);
      }
    }
  }

  /** Setting site (x, y) to v changes the occupied count by v minus the
      site's old value; the ghost copies do not count. */
  lemma OccupiedAfterSetSite(g: Grid, L: int, x: int, y: int, v: int)
    requires Shaped(g, L) && Interior(L, (x, y))
    ensures Occupied(SetSite(g, L, x, y, v), L) == Occupied(g, L) - g[x][y] + v
  {
    var h := SetSite(g, L, x, y, v);
    forall a, b | Interior(L, (a, b)) && (a, b) != (x, y)
      ensures h[a][b] == g[a][b]
    {
      SetSiteInterior(g, L, x, y, v, a, b);
    }
    OccupiedRowsChange(g, h, L, L, x, y);
  }

  /** Lattice update with periodic mirroring: set (x, y) to v and, on each
      axis independently, its ghost copy on the far side. */
  method Apply(lat: array2<int>, L: int, x: int, y: int, v: int)
    requires lat.Length0 == L + 2 && lat.Length1 == L + 2 && L >= 1
    requires Interior(L, (x, y))
    modifies lat
    ensures Snapshot(lat) == SetSite(old(Snapshot(lat)), L, x, y, v)
  {
    ghost var g := Snapshot(lat);
    lat[x, y] := v;
    if x == 1 {
      lat[L + 1, y] := v;
    } else if x == L {
      lat[0, y] := v;
    }
    if y == 1 {
      lat[x, L + 1] := v;
    } else if y == L {
      lat[x, 0] := v;
    }
    ghost var h := SetSite(g, L, x, y, v);
    assert forall a, b :: 0 <= a < L + 2 && 0 <= b < L + 2 ==> lat[a, b] == h[a][b];
    ghost var s := Snapshot(lat);
    forall a | 0 <= a < L + 2
      ensures s[a] == h[a]
    {
      assert |s[a]| == |h[a]|;
      assert forall b :: 0 <= b < L + 2 ==> s[a][b] == h[a][b];
    }
  }
}
