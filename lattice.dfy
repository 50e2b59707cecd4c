/** The D2Q9 lattice: the nine-speed cell, the flat row-major grid layout, the
    lattice vectors of the nine speeds, and the sums used as mass measure.

    Speeds are numbered as in the source's diagram:
        6 2 5
         \|/
        3-0-1
         /|\
        7 4 8
 */
module Lattice {

  const NSPEEDS := 9

  /** One `t_speed`: the nine distribution values of a cell. */
  type Speeds = s: seq<real> | |s| == NSPEEDS
    witness [0.0, 0.0, 0.0, 0.0, 0.0, 0.0, 0.0, 0.0, 0.0]

  /** `t_param`: the seven values read from the parameter file. */
  datatype Params = Params(
    nx: int,          // cells in x
    ny: int,          // cells in y
    maxIters: int,    // iterations
    reynoldsDim: int, // dimension for the Reynolds number
    density: real,    // density per link
    accel: real,      // density redistribution
    omega: real       // relaxation parameter
  )

  /** Flat index of column `ii`, row `jj` in a row-major grid of width `nx`. */
  function Cell(nx: int, ii: int, jj: int): int
  {
    ii + jj * nx
  }

  lemma CellInGrid(nx: int, ny: int, ii: int, jj: int)
    requires 0 <= ii < nx && 0 <= jj < ny
    ensures 0 <= Cell(nx, ii, jj) < nx * ny
  {
    assert jj * nx <= (ny - 1) * nx;
  }

  /** Column and row are recovered from the flat index by `%` and `/`. */
  lemma CellCoords(nx: int, ii: int, jj: int)
    requires 0 <= ii < nx && 0 <= jj
    ensures Cell(nx, ii, jj) % nx == ii && Cell(nx, ii, jj) / nx == jj
  {
    DivModUnique(Cell(nx, ii, jj), nx, jj, ii);
  }

  lemma DivModUnique(c: int, n: int, q: int, r: int)
    requires n > 0 && 0 <= r < n && c == q * n + r
    ensures c / n == q && c % n == r
  {
    var q', r' := c / n, c % n;
    assert c == q' * n + r' && 0 <= r' < n;
    if q' > q {
      MulAtLeast(q' - q, n);
    } else if q' < q {
      MulAtLeast(q - q', n);
    }
  }

  lemma MulAtLeast(a: int, n: int)
    requires a >= 1 && n > 0
    ensures a * n >= n
  {
  }

  /** Every flat index of an nx-by-ny grid is the index of some (column, row). */
  lemma CellCover(nx: int, ny: int, c: int)
    requires nx > 0 && 0 <= c < nx * ny
    ensures 0 <= c % nx < nx && 0 <= c / nx < ny
    ensures c == Cell(nx, c % nx, c / nx)
  {
  }

  /** Flat index of column ii, row jj after wrapping both round the edges of
      an nx-by-ny grid (periodic boundaries). */
  function Wrapped(nx: int, ny: int, ii: int, jj: int): (c: int)
    requires nx > 0 && ny > 0
    ensures 0 <= c < nx * ny
  {
    CellInGrid(nx, ny, ii % nx, jj % ny);
    Cell(nx, ii % nx, jj % ny)
  }

  /** x component of the lattice vector of speed k. */
  function EX(k: int): (e: int)
    requires 0 <= k < NSPEEDS
    ensures -1 <= e <= 1
  {
    [0, 1, 0, -1, 0, 1, -1, -1, 1][k]
  }

  /** y component of the lattice vector of speed k. */
  function EY(k: int): (e: int)
    requires 0 <= k < NSPEEDS
    ensures -1 <= e <= 1
  {
    [0, 0, 1, 0, -1, 1, 1, -1, -1][k]
  }

  /** The speed pointing the opposite way: pairs 1-3, 2-4, 5-7, 6-8. */
  function Opp(k: int): (o: int)
    requires 0 <= k < NSPEEDS
    ensures 0 <= o < NSPEEDS
  {
    [0, 3, 4, 1, 2, 7, 8, 5, 6][k]
  }

  lemma OppReverses(k: int)
    requires 0 <= k < NSPEEDS
    ensures EX(Opp(k)) == -EX(k) && EY(Opp(k)) == -EY(k)
    ensures Opp(Opp(k)) == k
    ensures (k == 0) == (Opp(k) == k)
  {
  }

  /** Sum of a sequence, accumulated left to right as the source's loops do. */
  function Sum(s: seq<real>): real
  {
    if |s| == 0 then 0.0 else Sum(s[..|s| - 1]) + s[|s| - 1]
  }

  /** Sum of every distribution value of a grid, cell after cell. */
  function Total(g: seq<Speeds>): real
  {
    if |g| == 0 then 0.0 else Total(g[..|g| - 1]) + Sum(g[|g| - 1])
  }

  lemma {:induction false} SumConcat(a: seq<real>, b: seq<real>)
    ensures Sum(a + b) == Sum(a) + Sum(b)
    decreases |b|
  {
    if |b| > 0 {
      assert (a + b)[..|a + b| - 1] == a + b[..|b| - 1];
      SumConcat(a, b[..|b| - 1]);
    } else {
      assert a + b == a;
    }
  }

  /** The mass of one cell, written out. */
  lemma SumNine(t: Speeds)
    ensures Sum(t) == t[0] + t[1] + t[2] + t[3] + t[4] + t[5] + t[6] + t[7] + t[8]
  {
    assert t[..0] == [] && t[..9] == t;
    SumPrefixStep(t, 0);
    SumPrefixStep(t, 1);
    SumPrefixStep(t, 2);
    SumPrefixStep(t, 3);
    SumPrefixStep(t, 4);
    SumPrefixStep(t, 5);
    SumPrefixStep(t, 6);
    SumPrefixStep(t, 7);
    SumPrefixStep(t, 8);
  }

  /** Prefix sums step by one element: the invariant of an accumulating loop. */
  lemma SumPrefixStep(s: seq<real>, k: int)
    requires 0 <= k < |s|
    ensures Sum(s[..k + 1]) == Sum(s[..k]) + s[k]
  {
    assert s[..k + 1][..k] == s[..k];
  }

  lemma TotalPrefixStep(g: seq<Speeds>, c: int)
    requires 0 <= c < |g|
    ensures Total(g[..c + 1]) == Total(g[..c]) + Sum(g[c])
  {
    assert g[..c + 1][..c] == g[..c];
  }

  /** Two grids whose cells have pairwise equal mass have equal total mass. */
  lemma {:induction false} TotalOfEqualMasses(g: seq<Speeds>, h: seq<Speeds>)
    requires |g| == |h|
    requires forall c :: 0 <= c < |g| ==> Sum(g[c]) == Sum(h[c])
    ensures Total(g) == Total(h)
    decreases |g|
  {
    if |g| > 0 {
      TotalOfEqualMasses(g[..|g| - 1], h[..|h| - 1]);
    }
  }
}
