/** What a timestep keeps: the total density of the grid (the source's
    "total should remain constant"), and positivity as the condition under
    which every free cell has a density to divide by. */
module Conservation {
  import opened Lattice
  import opened Bgk
  import opened Stages

  // ------------------------------------------------- sums by speed and by row

  /** Speed k of every cell of a grid. */
  function Component(g: seq<Speeds>, k: int): (v: seq<real>)
    requires 0 <= k < NSPEEDS
    ensures |v| == |g|
  {
    seq(|g|, c requires 0 <= c < |g| => g[c][k])
  }

  /** The sum of each of the nine components of a grid. */
  function ComponentSums(g: seq<Speeds>): (s: seq<real>)
    ensures |s| == NSPEEDS
  {
    seq(NSPEEDS, k requires 0 <= k < NSPEEDS => Sum(Component(g, k)))
  }

  /** The total of a grid, summed cell by cell, equals the sum of its nine
      component sums. */
  lemma {:induction false} TotalByComponents(g: seq<Speeds>)
    ensures Total(g) == Sum(ComponentSums(g))
    decreases |g|
  {
    var s := ComponentSums(g);
    SumNine(s);
    if |g| == 0 {
      forall k | 0 <= k < NSPEEDS
        ensures s[k] == 0.0
      {
        assert Component(g, k) == [];
      }
    } else {
      var n := |g| - 1;
      TotalByComponents(g[..n]);
      var s' := ComponentSums(g[..n]);
      SumNine(s');
      SumNine(g[n]);
      forall k | 0 <= k < NSPEEDS
        ensures s[k] == s'[k] + g[n][k]
      {
        assert Component(g, k)[..n] == Component(g[..n], k);
      }
    }
  }

  /** Row jj of a grid of width nx, as a slice. */
  function Row(v: seq<real>, nx: int, ny: int, jj: int): (r: seq<real>)
    requires nx > 0 && |v| == nx * ny && 0 <= jj < ny
    ensures |r| == nx
  {
    CellInGrid(nx, ny, nx - 1, jj);
    v[jj * nx..jj * nx + nx]
  }

  lemma RowIndex(v: seq<real>, nx: int, ny: int, jj: int, ii: int)
    requires nx > 0 && |v| == nx * ny && 0 <= jj < ny && 0 <= ii < nx
    ensures 0 <= ii + jj * nx < |v|
    ensures Row(v, nx, ny, jj)[ii] == v[ii + jj * nx]
  {
    CellInGrid(nx, ny, ii, jj);
    CellInGrid(nx, ny, nx - 1, jj);
    var a := jj * nx;
    assert Row(v, nx, ny, jj) == v[a..a + nx];
    assert v[a..a + nx][ii] == v[a + ii];
  }

  /** The sum of each row of a grid. */
  function RowSums(v: seq<real>, nx: int, ny: int): (s: seq<real>)
    requires nx > 0 && ny >= 0 && |v| == nx * ny
    ensures |s| == ny
  {
    seq(ny, jj requires 0 <= jj < ny => Sum(Row(v, nx, ny, jj)))
  }

  /** A grid's sum is the sum of its row sums. */
  lemma {:induction false} SumByRows(v: seq<real>, nx: int, ny: int)
    requires nx > 0 && ny >= 0 && |v| == nx * ny
    ensures Sum(v) == Sum(RowSums(v, nx, ny))
    decreases ny
  {
    if ny == 0 {
      assert v == [];
    } else {
      var m := (ny - 1) * nx;
      LastRow(v, nx, ny);
      SumByRows(v[..m], nx, ny - 1);
      SumConcat(v[..m], v[m..]);
    }
  }

  /** Dropping the last row of a grid drops the last row sum. */
  lemma LastRow(v: seq<real>, nx: int, ny: int)
    requires nx > 0 && ny > 0 && |v| == nx * ny
    ensures 0 <= (ny - 1) * nx <= |v|
    ensures v == v[..(ny - 1) * nx] + v[(ny - 1) * nx..]
    ensures RowSums(v, nx, ny)[..ny - 1] == RowSums(v[..(ny - 1) * nx], nx, ny - 1)
    ensures RowSums(v, nx, ny)[ny - 1] == Sum(v[(ny - 1) * nx..])
  {
    var m := (ny - 1) * nx;
    assert m + nx == |v|;
    forall jj | 0 <= jj < ny - 1
      ensures RowSums(v, nx, ny)[jj] == RowSums(v[..m], nx, ny - 1)[jj]
    {
      RowOfPrefix(v, nx, ny, jj);
    }
    assert Row(v, nx, ny, ny - 1) == v[m..];
  }

  /** A row above the last is the same row of the grid without its last row. */
  lemma RowOfPrefix(v: seq<real>, nx: int, ny: int, jj: int)
    requires nx > 0 && ny > 0 && |v| == nx * ny && 0 <= jj < ny - 1
    ensures 0 <= (ny - 1) * nx <= |v|
    ensures Row(v, nx, ny, jj) == Row(v[..(ny - 1) * nx], nx, ny - 1, jj)
  {
    CellInGrid(nx, ny - 1, nx - 1, jj);
    CellInGrid(nx, ny, nx - 1, ny - 1);
    var a := jj * nx;
    assert Row(v, nx, ny, jj) == v[a..a + nx];
    assert Row(v[..(ny - 1) * nx], nx, ny - 1, jj) == v[..(ny - 1) * nx][a..a + nx];
  }

  // ------------------------------------------------------- periodic rotation

  /** `r` rotated by one place forward (e = 1), backward (e = -1), or not at all. */
  function Rotate(r: seq<real>, e: int): (s: seq<real>)
    requires |r| > 0
    ensures |s| == |r|
  {
    if e == 1 then [r[|r| - 1]] + r[..|r| - 1]
    else if e == -1 then r[1..] + [r[0]]
    else r
  }

  /** Element i of the rotation comes from i - e, wrapping round. */
  lemma RotateIndex(r: seq<real>, e: int, i: int)
    requires |r| > 0 && -1 <= e <= 1 && 0 <= i < |r|
    ensures 0 <= (i - e) % |r| < |r|
    ensures Rotate(r, e)[i] == r[(i - e) % |r|]
  {
    var n := |r|;
    if e == 1 {
      if i == 0 {
        DivModUnique(-1, n, -1, n - 1);
      } else {
        DivModUnique(i - 1, n, 0, i - 1);
      }
    } else if e == -1 {
      if i == n - 1 {
        DivModUnique(n, n, 1, 0);
      } else {
        DivModUnique(i + 1, n, 0, i + 1);
      }
    } else {
      DivModUnique(i, n, 0, i);
    }
  }

  /** Rotating keeps the sum. */
  lemma RotateSum(r: seq<real>, e: int)
    requires |r| > 0
    ensures Sum(Rotate(r, e)) == Sum(r)
  {
    if e == 1 {
      RotateForwardSum(r);
    } else if e == -1 {
      RotateBackwardSum(r);
    }
  }

  lemma RotateForwardSum(r: seq<real>)
    requires |r| > 0
    ensures Sum([r[|r| - 1]] + r[..|r| - 1]) == Sum(r)
  {
    var n := |r|;
    SumConcat([r[n - 1]], r[..n - 1]);
    SumSingle(r[n - 1]);
  }

  lemma RotateBackwardSum(r: seq<real>)
    requires |r| > 0
    ensures Sum(r[1..] + [r[0]]) == Sum(r)
  {
    SumConcat(r[1..], [r[0]]);
    SumSingle(r[0]);
    assert r == [r[0]] + r[1..];
    SumConcat([r[0]], r[1..]);
  }

  lemma SumSingle(x: real)
    ensures Sum([x]) == x
  {
    assert [x][..0] == [];
  }

  /** Row jj of a grid taken from the neighbours (-ex, -ey) away is row
      jj - ey of the source grid rotated by ex. */
  lemma RowRotated(v: seq<real>, w: seq<real>, nx: int, ny: int, ex: int, ey: int, jj: int)
    requires nx > 0 && ny > 0 && |v| == nx * ny && |w| == |v| && 0 <= jj < ny
    requires -1 <= ex <= 1
    requires forall ii, jj :: 0 <= ii < nx && 0 <= jj < ny ==>
      w[Wrapped(nx, ny, ii, jj)] == v[Wrapped(nx, ny, ii - ex, jj - ey)]
    ensures 0 <= (jj - ey) % ny < ny
    ensures Row(w, nx, ny, jj) == Rotate(Row(v, nx, ny, (jj - ey) % ny), ex)
  {
    var jy := (jj - ey) % ny;
    var row := Row(v, nx, ny, jy);
    forall ii | 0 <= ii < nx
      ensures Row(w, nx, ny, jj)[ii] == Rotate(row, ex)[ii]
    {
      NeighbourIndex(nx, ny, ii, jj);
      RotateIndex(row, ex, ii);
      var xi := (ii - ex) % nx;
      RowIndex(w, nx, ny, jj, ii);
      RowIndex(v, nx, ny, jy, xi);
      assert Wrapped(nx, ny, ii - ex, jj - ey) == xi + jy * nx;
    }
  }

  lemma NeighbourIndex(nx: int, ny: int, ii: int, jj: int)
    requires nx > 0 && ny > 0 && 0 <= ii < nx && 0 <= jj < ny
    ensures Wrapped(nx, ny, ii, jj) == ii + jj * nx
  {
    DivModUnique(ii, nx, 0, ii);
    DivModUnique(jj, ny, 0, jj);
  }

  /** A grid whose every value comes from the neighbour (-ex, -ey) away, with
      wrap-around on both axes, has the same sum as the grid it came from. */
  lemma ShiftedGridSum(v: seq<real>, w: seq<real>, nx: int, ny: int, ex: int, ey: int)
    requires nx > 0 && ny > 0 && |v| == nx * ny && |w| == |v|
    requires -1 <= ex <= 1 && -1 <= ey <= 1
    requires forall ii, jj :: 0 <= ii < nx && 0 <= jj < ny ==>
      w[Wrapped(nx, ny, ii, jj)] == v[Wrapped(nx, ny, ii - ex, jj - ey)]
    ensures Sum(w) == Sum(v)
  {
    SumByRows(w, nx, ny);
    SumByRows(v, nx, ny);
    var rw, rv := RowSums(w, nx, ny), RowSums(v, nx, ny);
    forall jj | 0 <= jj < ny
      ensures rw[jj] == Rotate(rv, ey)[jj]
    {
      RowRotated(v, w, nx, ny, ex, ey, jj);
      RotateSum(Row(v, nx, ny, (jj - ey) % ny), ex);
      RotateIndex(rv, ey, jj);
    }
    assert rw == Rotate(rv, ey);
    RotateSum(rv, ey);
  }

  // --------------------------------------------------------------- the stages

  /** Streaming keeps the rest speed of every cell in place. */
  lemma PropagatedRest(g: seq<Speeds>, nx: int, ny: int, c: int)
    requires nx > 0 && ny > 0 && |g| == nx * ny && 0 <= c < |g|
    ensures Propagated(g, nx, ny)[c][0] == g[c][0]
  {
    CellCover(nx, ny, c);
    NeighbourWrap(c % nx, nx);
    NeighbourWrap(c / nx, ny);
  }

  /** Streaming wraps round the west edge: the east-moving value of column 0
      comes from column nx - 1 of the same row. */
  lemma PropagatedWrapsEast(g: seq<Speeds>, nx: int, ny: int, jj: int)
    requires nx > 0 && ny > 0 && |g| == nx * ny && 0 <= jj < ny
    ensures 0 <= Cell(nx, 0, jj) < |g| && 0 <= Cell(nx, nx - 1, jj) < |g|
    ensures Propagated(g, nx, ny)[Cell(nx, 0, jj)][1] == g[Cell(nx, nx - 1, jj)][1]
  {
    CellInGrid(nx, ny, 0, jj);
    CellInGrid(nx, ny, nx - 1, jj);
    UpwindLiteral(nx, ny, 0, jj, nx - 1, 1 % nx, if jj == 0 then ny - 1 else jj - 1, (jj + 1) % ny);
    CellCoords(nx, 0, jj);
  }

  /** Component k of the streamed grid is component k of the grid shifted
      by the lattice vector of speed k. */
  lemma ComponentStreamed(g: seq<Speeds>, nx: int, ny: int, k: int)
    requires nx > 0 && ny > 0 && |g| == nx * ny && 0 <= k < NSPEEDS
    ensures forall ii, jj :: 0 <= ii < nx && 0 <= jj < ny ==>
      Component(Propagated(g, nx, ny), k)[Wrapped(nx, ny, ii, jj)]
        == Component(g, k)[Wrapped(nx, ny, ii - EX(k), jj - EY(k))]
  {
    forall ii, jj | 0 <= ii < nx && 0 <= jj < ny
      ensures Component(Propagated(g, nx, ny), k)[Wrapped(nx, ny, ii, jj)]
           == Component(g, k)[Wrapped(nx, ny, ii - EX(k), jj - EY(k))]
    {
      NeighbourIndex(nx, ny, ii, jj);
      CellCoords(nx, ii, jj);
    }
  }

  /** Streaming moves values between cells but keeps the total density. */
  lemma PropagateConservesMass(g: seq<Speeds>, nx: int, ny: int)
    requires nx > 0 && ny > 0 && |g| == nx * ny
    ensures Total(Propagated(g, nx, ny)) == Total(g)
  {
    var t := Propagated(g, nx, ny);
    TotalByComponents(t);
    TotalByComponents(g);
    forall k | 0 <= k < NSPEEDS
      ensures Sum(Component(t, k)) == Sum(Component(g, k))
    {
      ComponentStreamed(g, nx, ny, k);
      ShiftedGridSum(Component(g, k), Component(t, k), nx, ny, EX(k), EY(k));
    }
    assert ComponentSums(t) == ComponentSums(g);
  }

  /** Acceleration moves density between the speeds of a cell and so keeps
      the total. */
  lemma AccelerateConservesMass(g: seq<Speeds>, obstacles: seq<int>, p: Params)
    requires |obstacles| == |g|
    ensures Total(Accelerated(g, obstacles, p)) == Total(g)
  {
    var a := Accelerated(g, obstacles, p);
    forall c | 0 <= c < |g|
      ensures Sum(a[c]) == Sum(g[c])
    {
      AccelerateCellMoments(g[c], AccelAxis(p), AccelDiagonal(p));
    }
    TotalOfEqualMasses(a, g);
  }

  /** After a whole timestep each cell holds the density of its streamed
      cell: collision keeps it at free cells and bounce-back at obstacles. */
  lemma StepCellMass(g: seq<Speeds>, obstacles: seq<int>, p: Params, c: int)
    requires Shaped(g, obstacles, p)
    requires CollisionDefined(Streamed(g, obstacles, p), obstacles)
    requires 0 <= c < |g|
    ensures Sum(Step(g, obstacles, p)[c]) == Sum(Streamed(g, obstacles, p)[c])
  {
    var a := Accelerated(g, obstacles, p);
    var t := Streamed(g, obstacles, p);
    if obstacles[c] != 0 {
      PropagatedRest(a, p.nx, p.ny, c);
      BounceReverses(a[c], t[c]);
    }
  }

  /** One timestep keeps the total density of the grid. */
  lemma StepConservesMass(g: seq<Speeds>, obstacles: seq<int>, p: Params)
    requires Shaped(g, obstacles, p)
    requires CollisionDefined(Streamed(g, obstacles, p), obstacles)
    ensures Total(Step(g, obstacles, p)) == Total(g)
  {
    var a := Accelerated(g, obstacles, p);
    var t := Streamed(g, obstacles, p);
    AccelerateConservesMass(g, obstacles, p);
    PropagateConservesMass(a, p.nx, p.ny);
    forall c | 0 <= c < |g|
      ensures Sum(Step(g, obstacles, p)[c]) == Sum(t[c])
    {
      StepCellMass(g, obstacles, p, c);
    }
    TotalOfEqualMasses(Step(g, obstacles, p), t);
  }

  // ---------------------------------------------------------------- positivity

  /** Every value of every cell is positive. */
  predicate Positive(g: seq<Speeds>)
  {
    forall c, k :: 0 <= c < |g| && 0 <= k < NSPEEDS ==> g[c][k] > 0.0
  }

  lemma ProductNonNegative(a: real, b: real)
    requires a >= 0.0 && b >= 0.0
    ensures a * b >= 0.0
  {
  }

  /** With non-negative density and acceleration, a positive grid stays
      positive through accelerate and propagate, so every cell of the streamed
      grid has positive density and collision is defined everywhere. */
  lemma PositiveStreamed(g: seq<Speeds>, obstacles: seq<int>, p: Params)
    requires Shaped(g, obstacles, p)
    requires p.density >= 0.0 && p.accel >= 0.0
    requires Positive(g)
    ensures Positive(Streamed(g, obstacles, p))
    ensures forall c :: 0 <= c < |g| ==> Density(Streamed(g, obstacles, p)[c]) > 0.0
    ensures CollisionDefined(Streamed(g, obstacles, p), obstacles)
  {
    var a := Accelerated(g, obstacles, p);
    ProductNonNegative(p.density, p.accel);
    forall c | 0 <= c < |a|
      ensures forall k :: 0 <= k < NSPEEDS ==> a[c][k] > 0.0
    {
      if InRow(p.nx, p.ny - 2, c) && AccelGuard(g[c], obstacles[c], AccelAxis(p), AccelDiagonal(p)) {
        AccelerateCellPositive(g[c], obstacles[c], AccelAxis(p), AccelDiagonal(p));
      }
    }
    var t := Streamed(g, obstacles, p);
    forall c | 0 <= c < |t|
      ensures Density(t[c]) > 0.0
    {
      SumNine(t[c]);
    }
  }
}
