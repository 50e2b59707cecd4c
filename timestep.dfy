/** One timestep of the single-worker simulation: accelerate_flow, propagate,
    rebound and collision, each an in-place loop over the flat grid, proved
    against a pure function of the grid it starts from. */
module Stages {
  import opened Lattice
  import opened Bgk

  /** Whether flat index `c` lies in row `jj` of a grid of width `nx`. */
  predicate InRow(nx: int, jj: int, c: int)
  {
    jj * nx <= c < jj * nx + nx
  }

  // ---------------------------------------------------------------- accelerate

  /** Amount moved between axis speeds when the flow is accelerated. */
  function AccelAxis(p: Params): real
  {
    p.density * p.accel / 9.0
  }

  /** Amount moved between diagonal speeds when the flow is accelerated. */
  function AccelDiagonal(p: Params): real
  {
    p.density * p.accel / 36.0
  }

  /** A cell is accelerated when it is free and no westward value would
      become non-positive. */
  predicate AccelGuard(s: Speeds, obstacle: int, w1: real, w2: real)
  {
    obstacle == 0 && s[3] - w1 > 0.0 && s[6] - w2 > 0.0 && s[7] - w2 > 0.0
  }

  /** Move `w1` from speed 3 to speed 1 and `w2` from speeds 6, 7 to speeds 5, 8.
      The rest speed and the north and south speeds are not touched, and each
      eastward speed gains exactly what its westward mirror loses. */
  function AccelerateCell(s: Speeds, w1: real, w2: real): (r: Speeds)
    ensures r[0] == s[0] && r[2] == s[2] && r[4] == s[4]
    ensures r[1] + r[3] == s[1] + s[3] && r[5] + r[7] == s[5] + s[7] && r[8] + r[6] == s[8] + s[6]
  {
    s[1 := s[1] + w1][5 := s[5] + w2][8 := s[8] + w2][3 := s[3] - w1][6 := s[6] - w2][7 := s[7] - w2]
  }

  /** Acceleration keeps the mass of a cell and the northward momentum, and
      adds `2 w1 + 4 w2` eastward momentum. */
  lemma AccelerateCellMoments(s: Speeds, w1: real, w2: real)
    ensures Sum(AccelerateCell(s, w1, w2)) == Sum(s)
    ensures MomentumX(AccelerateCell(s, w1, w2)) == MomentumX(s) + 2.0 * w1 + 4.0 * w2
    ensures MomentumY(AccelerateCell(s, w1, w2)) == MomentumY(s)
  {
    var r := AccelerateCell(s, w1, w2);
    SumNine(s);
    SumNine(r);
    MomentumNine(s);
    MomentumNine(r);
  }

  /** With the source's weights the injected momentum is density * accel / 3. */
  lemma AccelerationMomentum(p: Params)
    ensures 2.0 * AccelAxis(p) + 4.0 * AccelDiagonal(p) == p.density * p.accel / 3.0
  {
  }

  /** An accelerated cell whose values were positive stays positive, given
      non-negative weights: the guard protects the speeds that lose density. */
  lemma AccelerateCellPositive(s: Speeds, obstacle: int, w1: real, w2: real)
    requires w1 >= 0.0 && w2 >= 0.0
    requires AccelGuard(s, obstacle, w1, w2)
    requires forall k :: 0 <= k < NSPEEDS ==> s[k] > 0.0
    ensures forall k :: 0 <= k < NSPEEDS ==> AccelerateCell(s, w1, w2)[k] > 0.0
  {
  }

  /** A guarded cell keeps its westward speeds positive after acceleration,
      whatever the sign of the weights or of its other values. */
  lemma AccelerateGuardedWest(s: Speeds, obstacle: int, w1: real, w2: real)
    requires AccelGuard(s, obstacle, w1, w2)
    ensures AccelerateCell(s, w1, w2)[3] > 0.0
    ensures AccelerateCell(s, w1, w2)[6] > 0.0 && AccelerateCell(s, w1, w2)[7] > 0.0
  {
  }

  /** The grid after accelerate_flow: the guarded cells of row ny - 2 are
      accelerated. Every cell outside that row, and every obstacle cell, is
      left as it was. */
  function Accelerated(g: seq<Speeds>, obstacles: seq<int>, p: Params): (r: seq<Speeds>)
    requires |obstacles| == |g|
    ensures |r| == |g|
    ensures forall c :: 0 <= c < |g| && (!InRow(p.nx, p.ny - 2, c) || obstacles[c] != 0) ==> r[c] == g[c]
  {
    seq(|g|, c requires 0 <= c < |g| =>
      if InRow(p.nx, p.ny - 2, c) && AccelGuard(g[c], obstacles[c], AccelAxis(p), AccelDiagonal(p))
      then AccelerateCell(g[c], AccelAxis(p), AccelDiagonal(p))
      else g[c])
  }

  /** `accelerate_flow`: walk row ny - 2 and accelerate every guarded cell in place. */
  method AccelerateFlow(p: Params, cells: array<Speeds>, obstacles: array<int>)
    requires p.nx > 0 && p.ny >= 2
    requires cells.Length == p.nx * p.ny && obstacles.Length == cells.Length
    modifies cells
    ensures cells[..] == Accelerated(old(cells[..]), obstacles[..], p)
  {
    ghost var g := cells[..];
    var w1 := p.density * p.accel / 9.0;
    var w2 := p.density * p.accel / 36.0;
    var jj := p.ny - 2;
    assert w1 == AccelAxis(p) && w2 == AccelDiagonal(p);
    ghost var want := Accelerated(g, obstacles[..], p);
    ghost var row := jj * p.nx;
    for ii := 0 to p.nx
      invariant forall c :: 0 <= c < cells.Length ==> cells[c] == if row <= c < row + ii then want[c] else g[c]
    {
      CellInGrid(p.nx, p.ny, ii, jj);
      AccelerateAt(cells, obstacles, ii + jj * p.nx, w1, w2);
    }
  }

  /** The body of `accelerate_flow`'s loop: cell c, if free and guarded, is accelerated in place. */
  method AccelerateAt(cells: array<Speeds>, obstacles: array<int>, c: int, w1: real, w2: real)
    requires 0 <= c < cells.Length && obstacles.Length == cells.Length
    modifies cells
    ensures cells[..] == old(cells[..])[c :=
      if AccelGuard(old(cells[c]), obstacles[c], w1, w2) then AccelerateCell(old(cells[c]), w1, w2) else old(cells[c])]
  {
    if !(obstacles[c] != 0) && cells[c][3] - w1 > 0.0 && cells[c][6] - w2 > 0.0 && cells[c][7] - w2 > 0.0 {
      var s := cells[c];
      s := s[1 := s[1] + w1];
      s := s[5 := s[5] + w2];
      s := s[8 := s[8] + w2];
      s := s[3 := s[3] - w1];
      s := s[6 := s[6] - w2];
      s := s[7 := s[7] - w2];
      cells[c] := s;
    }
  }

  // ----------------------------------------------------------------- propagate

  /** Flat index of the cell one lattice step against speed k from (ii, jj),
      wrapping round both edges. */
  function Upwind(nx: int, ny: int, ii: int, jj: int, k: int): (c: int)
    requires nx > 0 && ny > 0 && 0 <= k < NSPEEDS
    ensures 0 <= c < nx * ny
  {
    Wrapped(nx, ny, ii - EX(k), jj - EY(k))
  }

  /** The cell (ii, jj) after streaming: each speed k arrives from the upwind neighbour. */
  function StreamCell(g: seq<Speeds>, nx: int, ny: int, ii: int, jj: int): Speeds
    requires nx > 0 && ny > 0 && |g| == nx * ny
  {
    seq(NSPEEDS, k requires 0 <= k < NSPEEDS => g[Upwind(nx, ny, ii, jj, k)][k])
  }

  /** The scratch grid after propagate: one streamed cell per cell of the grid. */
  function Propagated(g: seq<Speeds>, nx: int, ny: int): (t: seq<Speeds>)
    requires nx > 0 && ny > 0 && |g| == nx * ny
    ensures |t| == |g|
  {
    seq(|g|, c requires 0 <= c < |g| => StreamCell(g, nx, ny, c % nx, c / nx))
  }

  /** The source's neighbour arithmetic is the periodic wrap of the lattice vectors. */
  lemma NeighbourWrap(i: int, n: int)
    requires 0 <= i < n
    ensures (i + 1) % n == (i - (-1)) % n
    ensures (if i == 0 then i + n - 1 else i - 1) == (i - 1) % n
    ensures i % n == i && (i - 0) % n == i
  {
    if i == 0 {
      DivModUnique(-1, n, -1, n - 1);
    } else {
      DivModUnique(i - 1, n, 0, i - 1);
    }
    if i + 1 < n {
      DivModUnique(i + 1, n, 0, i + 1);
    } else {
      DivModUnique(i + 1, n, 1, 0);
    }
    DivModUnique(i, n, 0, i);
  }

  /** The upwind neighbours of (ii, jj) are the source's named neighbours. */
  lemma UpwindLiteral(nx: int, ny: int, ii: int, jj: int, xw: int, xe: int, ys: int, yn: int)
    requires nx > 0 && ny > 0 && 0 <= ii < nx && 0 <= jj < ny
    requires yn == (jj + 1) % ny && xe == (ii + 1) % nx
    requires ys == (if jj == 0 then jj + ny - 1 else jj - 1)
    requires xw == (if ii == 0 then ii + nx - 1 else ii - 1)
    ensures Upwind(nx, ny, ii, jj, 0) == ii + jj * nx
    ensures Upwind(nx, ny, ii, jj, 1) == xw + jj * nx
    ensures Upwind(nx, ny, ii, jj, 2) == ii + ys * nx
    ensures Upwind(nx, ny, ii, jj, 3) == xe + jj * nx
    ensures Upwind(nx, ny, ii, jj, 4) == ii + yn * nx
    ensures Upwind(nx, ny, ii, jj, 5) == xw + ys * nx
    ensures Upwind(nx, ny, ii, jj, 6) == xe + ys * nx
    ensures Upwind(nx, ny, ii, jj, 7) == xe + yn * nx
    ensures Upwind(nx, ny, ii, jj, 8) == xw + yn * nx
  {
    NeighbourWrap(ii, nx);
    NeighbourWrap(jj, ny);
  }

  /** One cell of the scratch grid as the source writes it, from the four named neighbours. */
  lemma PropagatedAt(g: seq<Speeds>, nx: int, ny: int, ii: int, jj: int, xw: int, xe: int, ys: int, yn: int)
    requires nx > 0 && ny > 0 && |g| == nx * ny && 0 <= ii < nx && 0 <= jj < ny
    requires yn == (jj + 1) % ny && xe == (ii + 1) % nx
    requires ys == (if jj == 0 then jj + ny - 1 else jj - 1)
    requires xw == (if ii == 0 then ii + nx - 1 else ii - 1)
    ensures 0 <= ii + jj * nx < |g|
    ensures 0 <= xw + jj * nx < |g| && 0 <= ii + ys * nx < |g| && 0 <= xe + jj * nx < |g|
    ensures 0 <= ii + yn * nx < |g| && 0 <= xw + ys * nx < |g| && 0 <= xe + ys * nx < |g|
    ensures 0 <= xe + yn * nx < |g| && 0 <= xw + yn * nx < |g|
    ensures Propagated(g, nx, ny)[ii + jj * nx] == [
      g[ii + jj * nx][0], g[xw + jj * nx][1], g[ii + ys * nx][2],
      g[xe + jj * nx][3], g[ii + yn * nx][4], g[xw + ys * nx][5],
      g[xe + ys * nx][6], g[xe + yn * nx][7], g[xw + yn * nx][8]]
  {
    UpwindLiteral(nx, ny, ii, jj, xw, xe, ys, yn);
    CellCoords(nx, ii, jj);
    CellInGrid(nx, ny, ii, jj);
    assert Propagated(g, nx, ny)[ii + jj * nx] == StreamCell(g, nx, ny, ii, jj);
  }

  /** `propagate`: fill the scratch grid row by row from the upwind neighbours. */
  method Propagate(p: Params, cells: array<Speeds>, tmp: array<Speeds>)
    requires p.nx > 0 && p.ny > 0
    requires cells.Length == p.nx * p.ny && tmp.Length == cells.Length && tmp != cells
    modifies tmp
    ensures tmp[..] == Propagated(cells[..], p.nx, p.ny)
  {
    ghost var want := Propagated(cells[..], p.nx, p.ny);
    for jj := 0 to p.ny
      invariant forall c :: 0 <= c < tmp.Length && c < jj * p.nx ==> tmp[c] == want[c]
    {
      ghost var row := jj * p.nx;
      PropagateRow(p, cells, tmp, jj);
      assert row + p.nx == (jj + 1) * p.nx;
    }
  }

  /** The body of `propagate`'s outer loop: row jj of the scratch grid, west to east. */
  method PropagateRow(p: Params, cells: array<Speeds>, tmp: array<Speeds>, jj: int)
    requires p.nx > 0 && p.ny > 0 && 0 <= jj < p.ny
    requires cells.Length == p.nx * p.ny && tmp.Length == cells.Length && tmp != cells
    modifies tmp
    ensures forall c :: 0 <= c < tmp.Length ==>
      tmp[c] == if InRow(p.nx, jj, c) then Propagated(cells[..], p.nx, p.ny)[c] else old(tmp[c])
  {
    var nx, ny := p.nx, p.ny;
    ghost var want := Propagated(cells[..], nx, ny);
    ghost var row := jj * nx;
    for ii := 0 to nx
      invariant forall c :: 0 <= c < tmp.Length ==>
        tmp[c] == if row <= c < row + ii then want[c] else old(tmp[c])
    {
      CellInGrid(nx, ny, ii, jj);
      PropagateAt(p, cells, tmp, ii, jj, ii + jj * nx);
    }
  }

  /** One step of `propagate`'s inner loop: cell c = (ii, jj) of the scratch
      grid receives its streamed values. */
  method PropagateAt(p: Params, cells: array<Speeds>, tmp: array<Speeds>, ii: int, jj: int, c: int)
    requires p.nx > 0 && p.ny > 0 && 0 <= ii < p.nx && 0 <= jj < p.ny && c == ii + jj * p.nx
    requires cells.Length == p.nx * p.ny && tmp.Length == cells.Length && tmp != cells
    modifies tmp
    ensures 0 <= c < tmp.Length
    ensures tmp[..] == old(tmp[..])[c := Propagated(cells[..], p.nx, p.ny)[c]]
  {
    var cell := StreamedCell(p, cells, ii, jj);
    tmp[c] := cell;
  }

  /** The body of `propagate`'s inner loop: the values cell (ii, jj) receives
      from its four named neighbours and their diagonals. */
  method StreamedCell(p: Params, cells: array<Speeds>, ii: int, jj: int) returns (cell: Speeds)
    requires p.nx > 0 && p.ny > 0 && 0 <= ii < p.nx && 0 <= jj < p.ny
    requires cells.Length == p.nx * p.ny
    ensures 0 <= ii + jj * p.nx < cells.Length
    ensures cell == Propagated(cells[..], p.nx, p.ny)[ii + jj * p.nx]
  {
    var nx, ny := p.nx, p.ny;
    var yN := (jj + 1) % ny;
    var xE := (ii + 1) % nx;
    var yS := if jj == 0 then jj + ny - 1 else jj - 1;
    var xW := if ii == 0 then ii + nx - 1 else ii - 1;
    PropagatedAt(cells[..], nx, ny, ii, jj, xW, xE, yS, yN);
    cell := [
      cells[ii + jj * nx][0],   // rest
      cells[xW + jj * nx][1],   // east
      cells[ii + yS * nx][2],   // north
      cells[xE + jj * nx][3],   // west
      cells[ii + yN * nx][4],   // south
      cells[xW + yS * nx][5],   // north-east
      cells[xE + yS * nx][6],   // north-west
      cells[xE + yN * nx][7],   // south-west
      cells[xW + yN * nx][8]];  // south-east
  }

  // ------------------------------------------------------------------- rebound

  /** An obstacle cell after rebound: speed 0 kept from the main grid, every
      other speed taken from the opposite speed of the streamed cell. Spelled
      out, these are the source's eight swaps: east and west, north and south,
      and each diagonal with the one across from it. */
  function Bounce(s: Speeds, t: Speeds): (r: Speeds)
    ensures r == [s[0], t[3], t[4], t[1], t[2], t[7], t[8], t[5], t[6]]
  {
    seq(NSPEEDS, k requires 0 <= k < NSPEEDS => if k == 0 then s[0] else t[Opp(k)])
  }

  /** Bounce-back reverses the momentum the streamed cell carried, and keeps
      its mass apart from the exchange of the rest speed. */
  lemma BounceReverses(s: Speeds, t: Speeds)
    ensures Sum(Bounce(s, t)) == Sum(t) - t[0] + s[0]
    ensures MomentumX(Bounce(s, t)) == -MomentumX(t)
    ensures MomentumY(Bounce(s, t)) == -MomentumY(t)
  {
    var r := Bounce(s, t);
    SumNine(r);
    SumNine(t);
    MomentumNine(r);
    MomentumNine(t);
  }

  /** The main grid after rebound: only obstacle cells change. */
  function Rebounded(g: seq<Speeds>, t: seq<Speeds>, obstacles: seq<int>): (r: seq<Speeds>)
    requires |t| == |g| && |obstacles| == |g|
    ensures |r| == |g|
    ensures forall c :: 0 <= c < |g| && obstacles[c] == 0 ==> r[c] == g[c]
  {
    seq(|g|, c requires 0 <= c < |g| => if obstacles[c] != 0 then Bounce(g[c], t[c]) else g[c])
  }

  /** `rebound`: mirror the streamed values of every obstacle cell into the main grid. */
  method Rebound(p: Params, cells: array<Speeds>, tmp: array<Speeds>, obstacles: array<int>)
    requires p.nx > 0 && p.ny > 0
    requires cells.Length == p.nx * p.ny && tmp.Length == cells.Length && obstacles.Length == cells.Length
    requires tmp != cells
    modifies cells
    ensures cells[..] == Rebounded(old(cells[..]), tmp[..], obstacles[..])
  {
    ghost var g := cells[..];
    ghost var want := Rebounded(g, tmp[..], obstacles[..]);
    for jj := 0 to p.ny
      invariant forall c :: 0 <= c < cells.Length ==> cells[c] == if c < jj * p.nx then want[c] else g[c]
    {
      ghost var row := jj * p.nx;
      ReboundRow(p, cells, tmp, obstacles, jj);
      assert row + p.nx == (jj + 1) * p.nx;
    }
  }

  /** The body of `rebound`'s outer loop: the obstacle cells of row jj, west to east. */
  method ReboundRow(p: Params, cells: array<Speeds>, tmp: array<Speeds>, obstacles: array<int>, jj: int)
    requires p.nx > 0 && p.ny > 0 && 0 <= jj < p.ny
    requires cells.Length == p.nx * p.ny && tmp.Length == cells.Length && obstacles.Length == cells.Length
    requires tmp != cells
    modifies cells
    ensures forall c :: 0 <= c < cells.Length ==>
      cells[c] == if InRow(p.nx, jj, c) && obstacles[c] != 0 then Bounce(old(cells[c]), tmp[c]) else old(cells[c])
  {
    var nx, ny := p.nx, p.ny;
    ghost var row := jj * nx;
    for ii := 0 to nx
      invariant forall c :: 0 <= c < cells.Length ==>
        cells[c] == if row <= c < row + ii && obstacles[c] != 0 then Bounce(old(cells[c]), tmp[c]) else old(cells[c])
    {
      CellInGrid(nx, ny, ii, jj);
      ReboundAt(cells, tmp, obstacles, ii + jj * nx);
    }
  }

  /** The body of `rebound`'s inner loop: cell c, if an obstacle, takes the
      streamed values of the opposite speeds. */
  method ReboundAt(cells: array<Speeds>, tmp: array<Speeds>, obstacles: array<int>, c: int)
    requires 0 <= c < cells.Length && tmp.Length == cells.Length && obstacles.Length == cells.Length
    requires tmp != cells
    modifies cells
    ensures cells[..] == old(cells[..])[c := if obstacles[c] != 0 then Bounce(old(cells[c]), tmp[c]) else old(cells[c])]
  {
    if obstacles[c] != 0 {
      var t := tmp[c];
      cells[c] := [cells[c][0], t[3], t[4], t[1], t[2], t[7], t[8], t[5], t[6]];
    }
  }

  // ----------------------------------------------------------------- collision

  /** The density loop of `collision`: the nine values of a cell, summed in order. */
  method LocalDensity(t: Speeds) returns (localDensity: real)
    ensures localDensity == Density(t)
  {
    localDensity := 0.0;
    for kk := 0 to NSPEEDS
      invariant localDensity == Sum(t[..kk])
    {
      SumPrefixStep(t, kk);
      localDensity := localDensity + t[kk];
    }
    assert t[..NSPEEDS] == t;
  }

  /** The relaxation loop of `collision`: every speed of `t` moved toward `dEqu` at rate `omega`. */
  method RelaxCell(t: Speeds, dEqu: Speeds, omega: real) returns (r: Speeds)
    ensures r == Relax(t, dEqu, omega)
  {
    r := t;
    for kk := 0 to NSPEEDS
      invariant forall k :: 0 <= k < kk ==> r[k] == t[k] + omega * (dEqu[k] - t[k])
    {
      r := r[kk := t[kk] + omega * (dEqu[kk] - t[kk])];
    }
    assert forall k :: 0 <= k < NSPEEDS ==> r[k] == Relax(t, dEqu, omega)[k];
  }

  /** `collision` for one free cell: sum the density, derive the velocity and
      the equilibrium, and relax every speed toward it. */
  method CollideCell(t: Speeds, omega: real) returns (r: Speeds)
    requires Density(t) != 0.0
    ensures r == Collide(t, omega)
  {
    var localDensity := LocalDensity(t);
    var ux := (t[1] + t[5] + t[8] - (t[3] + t[6] + t[7])) / localDensity;
    var uy := (t[2] + t[5] + t[6] - (t[4] + t[7] + t[8])) / localDensity;
    MomentumNine(t);
    assert ux == VelocityX(t) && uy == VelocityY(t);
    var dEqu := Equilibrium(localDensity, ux, uy);
    r := RelaxCell(t, dEqu, omega);
  }

  /** Every free cell of the streamed grid has non-zero density. */
  predicate CollisionDefined(t: seq<Speeds>, obstacles: seq<int>)
    requires |obstacles| == |t|
  {
    forall c :: 0 <= c < |t| && obstacles[c] == 0 ==> Density(t[c]) != 0.0
  }

  /** The main grid after collision: free cells replaced by their collided
      streamed value, obstacle cells kept. */
  function Collided(g: seq<Speeds>, t: seq<Speeds>, obstacles: seq<int>, omega: real): (r: seq<Speeds>)
    requires |t| == |g| && |obstacles| == |g|
    requires CollisionDefined(t, obstacles)
    ensures |r| == |g|
    ensures forall c :: 0 <= c < |g| && obstacles[c] != 0 ==> r[c] == g[c]
  {
    seq(|g|, c requires 0 <= c < |g| => if obstacles[c] == 0 then Collide(t[c], omega) else g[c])
  }

  /** Each free cell of the collided grid has the mass and momenta of the
      streamed cell it was collided from. */
  lemma CollidedConserves(g: seq<Speeds>, t: seq<Speeds>, obstacles: seq<int>, omega: real)
    requires |t| == |g| && |obstacles| == |g|
    requires CollisionDefined(t, obstacles)
    ensures forall c :: 0 <= c < |g| && obstacles[c] == 0 ==>
      var r := Collided(g, t, obstacles, omega)[c];
      Sum(r) == Sum(t[c]) && MomentumX(r) == MomentumX(t[c]) && MomentumY(r) == MomentumY(t[c])
  {
  }

  /** `collision`: relax every free cell of the streamed grid into the main grid. */
  method Collision(p: Params, cells: array<Speeds>, tmp: array<Speeds>, obstacles: array<int>)
    requires p.nx > 0 && p.ny > 0
    requires cells.Length == p.nx * p.ny && tmp.Length == cells.Length && obstacles.Length == cells.Length
    requires tmp != cells
    requires CollisionDefined(tmp[..], obstacles[..])
    modifies cells
    ensures cells[..] == Collided(old(cells[..]), tmp[..], obstacles[..], p.omega)
  {
    ghost var g := cells[..];
    ghost var want := Collided(g, tmp[..], obstacles[..], p.omega);
    for jj := 0 to p.ny
      invariant forall c :: 0 <= c < cells.Length ==> cells[c] == if c < jj * p.nx then want[c] else g[c]
    {
      ghost var row := jj * p.nx;
      CollisionRow(p, cells, tmp, obstacles, jj);
      assert row + p.nx == (jj + 1) * p.nx;
    }
  }

  /** The body of `collision`'s outer loop: the free cells of row jj, west to east. */
  method CollisionRow(p: Params, cells: array<Speeds>, tmp: array<Speeds>, obstacles: array<int>, jj: int)
    requires p.nx > 0 && p.ny > 0 && 0 <= jj < p.ny
    requires cells.Length == p.nx * p.ny && tmp.Length == cells.Length && obstacles.Length == cells.Length
    requires tmp != cells
    requires CollisionDefined(tmp[..], obstacles[..])
    modifies cells
    ensures forall c :: 0 <= c < cells.Length ==>
      cells[c] == if InRow(p.nx, jj, c) && obstacles[c] == 0 then Collide(tmp[c], p.omega) else old(cells[c])
  {
    var nx, ny := p.nx, p.ny;
    ghost var row := jj * nx;
    for ii := 0 to nx
      invariant forall c :: 0 <= c < cells.Length ==>
        cells[c] == if row <= c < row + ii && obstacles[c] == 0 then Collide(tmp[c], p.omega) else old(cells[c])
    {
      CellInGrid(nx, ny, ii, jj);
      CollideAt(cells, tmp, obstacles, ii + jj * nx, p.omega);
    }
  }

  /** The body of `collision`'s inner loop: cell c, if free, is replaced by
      its collided streamed value. */
  method CollideAt(cells: array<Speeds>, tmp: array<Speeds>, obstacles: array<int>, c: int, omega: real)
    requires 0 <= c < cells.Length && tmp.Length == cells.Length && obstacles.Length == cells.Length
    requires tmp != cells
    requires CollisionDefined(tmp[..], obstacles[..])
    modifies cells
    ensures cells[..] == old(cells[..])[c := if obstacles[c] == 0 then Collide(tmp[c], omega) else old(cells[c])]
  {
    if !(obstacles[c] != 0) {
      assert tmp[..][c] == tmp[c] && obstacles[..][c] == 0;
      cells[c] := CollideCell(tmp[c], omega);
    }
  }

  // ------------------------------------------------------------------ timestep

  /** The grid shape a timestep needs: row ny - 2 exists for the acceleration. */
  predicate Shaped(g: seq<Speeds>, obstacles: seq<int>, p: Params)
  {
    p.nx > 0 && p.ny >= 2 && |g| == p.nx * p.ny && |obstacles| == |g|
  }

  /** The scratch grid of a timestep: the accelerated grid, streamed. */
  function Streamed(g: seq<Speeds>, obstacles: seq<int>, p: Params): (t: seq<Speeds>)
    requires Shaped(g, obstacles, p)
    ensures |t| == |g|
  {
    Propagated(Accelerated(g, obstacles, p), p.nx, p.ny)
  }

  /** The main grid after one timestep: each free cell ends with the mass and
      momenta that streamed into it. */
  function Step(g: seq<Speeds>, obstacles: seq<int>, p: Params): (r: seq<Speeds>)
    requires Shaped(g, obstacles, p)
    requires CollisionDefined(Streamed(g, obstacles, p), obstacles)
    ensures |r| == |g|
    ensures forall c :: 0 <= c < |g| && obstacles[c] == 0 ==>
      var t := Streamed(g, obstacles, p)[c];
      Sum(r[c]) == Sum(t) && MomentumX(r[c]) == MomentumX(t) && MomentumY(r[c]) == MomentumY(t)
  {
    var a := Accelerated(g, obstacles, p);
    var t := Streamed(g, obstacles, p);
    CollidedConserves(Rebounded(a, t, obstacles), t, obstacles, p.omega);
    Collided(Rebounded(a, t, obstacles), t, obstacles, p.omega)
  }

  /** `timestep`: the four stages in order, on the main grid and the scratch grid. */
  method Timestep(p: Params, cells: array<Speeds>, tmp: array<Speeds>, obstacles: array<int>)
    requires Shaped(cells[..], obstacles[..], p)
    requires tmp.Length == cells.Length && tmp != cells
    requires CollisionDefined(Streamed(cells[..], obstacles[..], p), obstacles[..])
    modifies cells, tmp
    ensures tmp[..] == Streamed(old(cells[..]), obstacles[..], p)
    ensures cells[..] == Step(old(cells[..]), obstacles[..], p)
  {
    AccelerateFlow(p, cells, obstacles);
    Propagate(p, cells, tmp);
    Rebound(p, cells, tmp, obstacles);
    Collision(p, cells, tmp, obstacles);
  }
}
