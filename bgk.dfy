/** The per-cell algebra of the BGK collision: local density and velocity, the
    second-order equilibrium distribution, and relaxation toward it. */
module Bgk {
  import opened Lattice

  const C_SQ: real := 1.0 / 3.0  // square of the speed of sound
  const W0: real := 4.0 / 9.0    // weight of the rest speed
  const W1: real := 1.0 / 9.0    // weight of the axis speeds
  const W2: real := 1.0 / 36.0   // weight of the diagonal speeds

  /** The values of a cell weighted by the x (or y) component of their lattice vectors. */
  function Weighted(t: Speeds, xAxis: bool): seq<real>
  {
    seq(NSPEEDS, k requires 0 <= k < NSPEEDS => (if xAxis then EX(k) else EY(k)) as real * t[k])
  }

  /** Net eastward flow of a cell: the values weighted by the x components of their lattice vectors. */
  function MomentumX(t: Speeds): real
  {
    Sum(Weighted(t, true))
  }

  /** Net northward flow of a cell: the values weighted by the y components of their lattice vectors. */
  function MomentumY(t: Speeds): real
  {
    Sum(Weighted(t, false))
  }

  /** Written out, the momenta are the differences the source computes:
      speeds 1, 5, 8 minus 3, 6, 7 eastward and 2, 5, 6 minus 4, 7, 8 northward. */
  lemma {:induction false} MomentumNine(t: Speeds)
    ensures MomentumX(t) == (t[1] + t[5] + t[8]) - (t[3] + t[6] + t[7])
    ensures MomentumY(t) == (t[2] + t[5] + t[6]) - (t[4] + t[7] + t[8])
  {
    SumNine(Weighted(t, true));
    SumNine(Weighted(t, false));
  }

  /** Equilibrium value of one direction whose velocity projection is `u`. */
  function Feq(w: real, rho: real, u: real, uSq: real): real
  {
    w * rho * (1.0 + u / C_SQ + (u * u) / (2.0 * C_SQ * C_SQ) - uSq / (2.0 * C_SQ))
  }

  /** The rest-speed equilibrium value: no first-order term in the velocity. */
  function FeqRestSpeed(rho: real, uSq: real): real
  {
    W0 * rho * (1.0 - uSq / (2.0 * C_SQ))
  }

  /** `d_equ`: the equilibrium distribution for density `rho` and velocity (ux, uy). */
  function Equilibrium(rho: real, ux: real, uy: real): Speeds
  {
    var uSq := ux * ux + uy * uy;
    [
      FeqRestSpeed(rho, uSq),
      Feq(W1, rho, ux, uSq),
      Feq(W1, rho, uy, uSq),
      Feq(W1, rho, -ux, uSq),
      Feq(W1, rho, -uy, uSq),
      Feq(W2, rho, ux + uy, uSq),
      Feq(W2, rho, -ux + uy, uSq),
      Feq(W2, rho, -ux - uy, uSq),
      Feq(W2, rho, ux - uy, uSq)
    ]
  }

  /** Each pair of opposite speeds of the equilibrium differs only by the
      momentum carried along their direction, 2/3 of it on the axes and 1/6 on
      the diagonals: the terms even in the velocity are the same for both. */
  lemma EquilibriumOpposites(rho: real, ux: real, uy: real)
    ensures var d := Equilibrium(rho, ux, uy);
      && d[1] - d[3] == 2.0 * (rho * ux) / 3.0 && d[2] - d[4] == 2.0 * (rho * uy) / 3.0
      && d[5] - d[7] == (rho * ux + rho * uy) / 6.0 && d[6] - d[8] == (rho * uy - rho * ux) / 6.0
  {
    EquilibriumForms(rho, ux, uy);
  }

  /** The equilibrium carries exactly the density and momentum it was built
      from: the weights sum to one and the lattice's first and second moments
      cancel the velocity corrections. */
  lemma EquilibriumMoments(rho: real, ux: real, uy: real)
    ensures Sum(Equilibrium(rho, ux, uy)) == rho
    ensures MomentumX(Equilibrium(rho, ux, uy)) == rho * ux
    ensures MomentumY(Equilibrium(rho, ux, uy)) == rho * uy
  {
    var px, py := rho * ux, rho * uy;
    var a, b, c := rho * (ux * ux), rho * (uy * uy), rho * (ux * uy);
    EquilibriumForms(rho, ux, uy);
    EquilibriumSums(Equilibrium(rho, ux, uy), rho, px, py, a, b, c);
  }

  /** Every equilibrium value is a linear form in rho, the momenta rho ux,
      rho uy and the second moments rho ux^2, rho uy^2, rho ux uy. */
  lemma EquilibriumForms(rho: real, ux: real, uy: real)
    ensures var d := Equilibrium(rho, ux, uy);
      var px, py := rho * ux, rho * uy;
      var a, b, c := rho * (ux * ux), rho * (uy * uy), rho * (ux * uy);
      AxisForms(d, rho, px, py, a, b) && DiagonalForms(d, rho, px, py, a, b, c)
  {
    var d := Equilibrium(rho, ux, uy);
    var px, py := rho * ux, rho * uy;
    var a, b, c := rho * (ux * ux), rho * (uy * uy), rho * (ux * uy);
    assert AxisForms(d, rho, px, py, a, b) by {
      RestEntry(rho, ux, uy, a, b);
      AxisPairX(rho, ux, uy, px, a, b);
      AxisPairY(rho, ux, uy, py, a, b);
    }
    assert DiagonalForms(d, rho, px, py, a, b, c) by {
      DiagonalNorthEast(rho, ux, uy, px, py, a, b, c);
      DiagonalNorthWest(rho, ux, uy, px, py, a, b, c);
      DiagonalSouthWest(rho, ux, uy, px, py, a, b, c);
      DiagonalSouthEast(rho, ux, uy, px, py, a, b, c);
    }
  }

  /** The rest and axis values of `d` as linear forms in rho, the momenta
      px, py and the second moments a = rho ux^2, b = rho uy^2. */
  predicate AxisForms(d: Speeds, rho: real, px: real, py: real, a: real, b: real)
  {
    && d[0] == 4.0 * rho / 9.0 - 2.0 * (a + b) / 3.0
    && d[1] == rho / 9.0 + px / 3.0 + a / 2.0 - (a + b) / 6.0
    && d[2] == rho / 9.0 + py / 3.0 + b / 2.0 - (a + b) / 6.0
    && d[3] == rho / 9.0 - px / 3.0 + a / 2.0 - (a + b) / 6.0
    && d[4] == rho / 9.0 - py / 3.0 + b / 2.0 - (a + b) / 6.0
  }

  /** The diagonal values of `d` as linear forms, with c = rho ux uy. */
  predicate DiagonalForms(d: Speeds, rho: real, px: real, py: real, a: real, b: real, c: real)
  {
    && d[5] == rho / 36.0 + (px + py) / 12.0 + (a + b + 2.0 * c) / 8.0 - (a + b) / 24.0
    && d[6] == rho / 36.0 + (-px + py) / 12.0 + (a + b + 2.0 * -c) / 8.0 - (a + b) / 24.0
    && d[7] == rho / 36.0 + (-px + -py) / 12.0 + (a + b + 2.0 * c) / 8.0 - (a + b) / 24.0
    && d[8] == rho / 36.0 + (px + -py) / 12.0 + (a + b + 2.0 * -c) / 8.0 - (a + b) / 24.0
  }

  /** The source's form of one equilibrium value, expanded with c_sq = 1/3. */
  lemma FeqExpanded(w: real, rho: real, u: real, uSq: real)
    ensures Feq(w, rho, u, uSq)
         == w * rho + 3.0 * w * (rho * u) + 4.5 * w * (rho * (u * u)) - 1.5 * w * (rho * uSq)
  {
    assert u / C_SQ == 3.0 * u;
    assert (u * u) / (2.0 * C_SQ * C_SQ) == 4.5 * (u * u);
    assert uSq / (2.0 * C_SQ) == 1.5 * uSq;
    var x := 1.0 + 3.0 * u + 4.5 * (u * u) - 1.5 * uSq;
    assert Feq(w, rho, u, uSq) == w * (rho * x);
    assert rho * x == rho + 3.0 * (rho * u) + 4.5 * (rho * (u * u)) - 1.5 * (rho * uSq);
  }

  /** An axis equilibrium value in terms of the moments rho*u, rho*u*u and rho*|u|^2. */
  lemma FeqAxis(rho: real, u: real, uSq: real, pu: real, q: real, s: real)
    requires pu == rho * u && q == rho * (u * u) && s == rho * uSq
    ensures Feq(W1, rho, u, uSq) == rho / 9.0 + pu / 3.0 + q / 2.0 - s / 6.0
  {
    FeqExpanded(W1, rho, u, uSq);
  }

  /** A diagonal equilibrium value in terms of the same moments. */
  lemma FeqDiagonal(rho: real, u: real, uSq: real, pu: real, q: real, s: real)
    requires pu == rho * u && q == rho * (u * u) && s == rho * uSq
    ensures Feq(W2, rho, u, uSq) == rho / 36.0 + pu / 12.0 + q / 8.0 - s / 24.0
  {
    FeqExpanded(W2, rho, u, uSq);
  }

  /** How sums, differences and negations of velocity components distribute
      over the moments built from them. */
  lemma Signs(rho: real, x: real, y: real)
    ensures rho * (x + y) == rho * x + rho * y && rho * (x - y) == rho * x - rho * y
    ensures rho * (-x) == -(rho * x)
    ensures rho * ((x + y) * (x + y)) == rho * (x * x) + rho * (y * y) + 2.0 * (rho * (x * y))
    ensures rho * ((x - y) * (x - y)) == rho * (x * x) + rho * (y * y) - 2.0 * (rho * (x * y))
    ensures rho * ((-x) * (-x)) == rho * (x * x)
    ensures rho * ((-x) * (-y)) == rho * (x * y)
    ensures rho * ((-x) * y) == -(rho * (x * y))
    ensures rho * (x * (-y)) == -(rho * (x * y))
  {
  }

  lemma Distribute(r: real, x: real, y: real)
    ensures r * (x + y) == r * x + r * y
  {
  }

  /** The rest-speed equilibrium value in terms of rho*|u|^2. */
  lemma FeqRest(rho: real, uSq: real, s: real)
    requires s == rho * uSq
    ensures FeqRestSpeed(rho, uSq) == 4.0 * rho / 9.0 - 2.0 * s / 3.0
  {
    assert uSq / (2.0 * C_SQ) == 1.5 * uSq;
    assert W0 * rho * (1.0 - 1.5 * uSq) == W0 * (rho - 1.5 * (rho * uSq));
  }

  /** Each equilibrium value as a linear form in rho, the momenta px, py and
      the second moments a = rho ux^2, b = rho uy^2, c = rho ux uy. */
  lemma RestEntry(rho: real, ux: real, uy: real, a: real, b: real)
    requires a == rho * (ux * ux) && b == rho * (uy * uy)
    ensures Equilibrium(rho, ux, uy)[0] == 4.0 * rho / 9.0 - 2.0 * (a + b) / 3.0
  {
    Distribute(rho, ux * ux, uy * uy);
    FeqRest(rho, ux * ux + uy * uy, a + b);
  }

  lemma AxisPairX(rho: real, ux: real, uy: real, px: real, a: real, b: real)
    requires px == rho * ux && a == rho * (ux * ux) && b == rho * (uy * uy)
    ensures Equilibrium(rho, ux, uy)[1] == rho / 9.0 + px / 3.0 + a / 2.0 - (a + b) / 6.0
    ensures Equilibrium(rho, ux, uy)[3] == rho / 9.0 - px / 3.0 + a / 2.0 - (a + b) / 6.0
  {
    var uSq := ux * ux + uy * uy;
    Distribute(rho, ux * ux, uy * uy);
    Signs(rho, ux, uy);
    FeqAxis(rho, ux, uSq, px, a, a + b);
    FeqAxis(rho, -ux, uSq, -px, a, a + b);
  }

  lemma AxisPairY(rho: real, ux: real, uy: real, py: real, a: real, b: real)
    requires py == rho * uy && a == rho * (ux * ux) && b == rho * (uy * uy)
    ensures Equilibrium(rho, ux, uy)[2] == rho / 9.0 + py / 3.0 + b / 2.0 - (a + b) / 6.0
    ensures Equilibrium(rho, ux, uy)[4] == rho / 9.0 - py / 3.0 + b / 2.0 - (a + b) / 6.0
  {
    var uSq := ux * ux + uy * uy;
    Distribute(rho, ux * ux, uy * uy);
    Signs(rho, uy, ux);
    FeqAxis(rho, uy, uSq, py, b, a + b);
    FeqAxis(rho, -uy, uSq, -py, b, a + b);
  }

  lemma DiagonalNorthEast(rho: real, ux: real, uy: real, px: real, py: real, a: real, b: real, c: real)
    requires px == rho * ux && py == rho * uy
    requires a == rho * (ux * ux) && b == rho * (uy * uy) && c == rho * (ux * uy)
    ensures Equilibrium(rho, ux, uy)[5] == rho / 36.0 + (px + py) / 12.0 + (a + b + 2.0 * c) / 8.0 - (a + b) / 24.0
  {
    Distribute(rho, ux * ux, uy * uy);
    DiagonalValue(rho, ux, uy, ux + uy, ux * ux + uy * uy, px, py, a, b, c, a + b);
  }

  lemma DiagonalNorthWest(rho: real, ux: real, uy: real, px: real, py: real, a: real, b: real, c: real)
    requires px == rho * ux && py == rho * uy
    requires a == rho * (ux * ux) && b == rho * (uy * uy) && c == rho * (ux * uy)
    ensures Equilibrium(rho, ux, uy)[6] == rho / 36.0 + (-px + py) / 12.0 + (a + b + 2.0 * -c) / 8.0 - (a + b) / 24.0
  {
    Signs(rho, ux, uy);
    Distribute(rho, ux * ux, uy * uy);
    DiagonalValue(rho, -ux, uy, -ux + uy, ux * ux + uy * uy, -px, py, a, b, -c, a + b);
  }

  lemma DiagonalSouthWest(rho: real, ux: real, uy: real, px: real, py: real, a: real, b: real, c: real)
    requires px == rho * ux && py == rho * uy
    requires a == rho * (ux * ux) && b == rho * (uy * uy) && c == rho * (ux * uy)
    ensures Equilibrium(rho, ux, uy)[7] == rho / 36.0 + (-px + -py) / 12.0 + (a + b + 2.0 * c) / 8.0 - (a + b) / 24.0
  {
    Signs(rho, ux, uy);
    Distribute(rho, ux * ux, uy * uy);
    DiagonalValue(rho, -ux, -uy, -ux - uy, ux * ux + uy * uy, -px, -py, a, b, c, a + b);
  }

  lemma DiagonalSouthEast(rho: real, ux: real, uy: real, px: real, py: real, a: real, b: real, c: real)
    requires px == rho * ux && py == rho * uy
    requires a == rho * (ux * ux) && b == rho * (uy * uy) && c == rho * (ux * uy)
    ensures Equilibrium(rho, ux, uy)[8] == rho / 36.0 + (px + -py) / 12.0 + (a + b + 2.0 * -c) / 8.0 - (a + b) / 24.0
  {
    Signs(rho, ux, uy);
    Distribute(rho, ux * ux, uy * uy);
    DiagonalValue(rho, ux, -uy, ux - uy, ux * ux + uy * uy, px, -py, a, b, -c, a + b);
  }

  lemma DiagonalValue(rho: real, x: real, y: real, u: real, uSq: real,
                      px: real, py: real, a: real, b: real, c: real, s: real)
    requires u == x + y
    requires px == rho * x && py == rho * y
    requires a == rho * (x * x) && b == rho * (y * y) && c == rho * (x * y)
    requires s == rho * uSq
    ensures Feq(W2, rho, u, uSq) == rho / 36.0 + (px + py) / 12.0 + (a + b + 2.0 * c) / 8.0 - s / 24.0
  {
    Signs(rho, x, y);
    FeqDiagonal(rho, x + y, uSq, px + py, a + b + 2.0 * c, s);
  }

  /** Adding up the linear forms: the weights sum to one and the first and
      second moments of the lattice cancel as the expansion intends. */
  lemma {:induction false} EquilibriumSums(d: Speeds, rho: real, px: real, py: real, a: real, b: real, c: real)
    requires AxisForms(d, rho, px, py, a, b) && DiagonalForms(d, rho, px, py, a, b, c)
    ensures Sum(d) == rho && MomentumX(d) == px && MomentumY(d) == py
  {
    SumNine(d);
    MomentumNine(d);
  }

  lemma Cancel(rho: real, x: real, y: real)
    requires rho != 0.0 && rho * x == rho * y
    ensures x == y
  {
    assert rho * (x - y) == 0.0;
  }

  /** `local_density` of `collision`: the sum of a cell's nine values. The
      name is kept because the source's velocity and equilibrium are stated
      in terms of it. */
  function Density(t: Speeds): real
  {
    Sum(t)
  }

  /** x velocity of a cell of non-zero density. */
  function VelocityX(t: Speeds): real
    requires Density(t) != 0.0
  {
    MomentumX(t) / Density(t)
  }

  /** y velocity of a cell of non-zero density. */
  function VelocityY(t: Speeds): real
    requires Density(t) != 0.0
  {
    MomentumY(t) / Density(t)
  }

  /** Density times velocity is momentum. */
  lemma {:induction false} VelocityMoments(t: Speeds)
    requires Density(t) != 0.0
    ensures Density(t) * VelocityX(t) == MomentumX(t)
    ensures Density(t) * VelocityY(t) == MomentumY(t)
  {
  }

  /** A cell's velocity is its momentum over its density. */
  lemma {:induction false} VelocityFromMoments(t: Speeds, rho: real, ux: real, uy: real)
    requires rho != 0.0 && Density(t) == rho
    requires MomentumX(t) == rho * ux && MomentumY(t) == rho * uy
    ensures VelocityX(t) == ux && VelocityY(t) == uy
  {
    VelocityMoments(t);
    Cancel(rho, VelocityX(t), ux);
    Cancel(rho, VelocityY(t), uy);
  }

  /** Relaxation of `t` toward `d` at rate `omega`, component by component:
      every value's distance from `d` shrinks by the factor 1 - omega, so
      omega = 1 lands on `d` and omega = 0 keeps `t`. */
  function Relax(t: Speeds, d: Speeds, omega: real): (r: Speeds)
    ensures forall k :: 0 <= k < NSPEEDS ==> r[k] - d[k] == (1.0 - omega) * (t[k] - d[k])
    ensures omega == 1.0 ==> r == d
    ensures omega == 0.0 ==> r == t
  {
    seq(NSPEEDS, k requires 0 <= k < NSPEEDS => t[k] + omega * (d[k] - t[k]))
  }

  /** Relaxation moves mass and momentum by the same fraction `omega` as each
      value, and relaxing a cell toward itself leaves it put. */
  lemma {:induction false} RelaxMoments(t: Speeds, d: Speeds, omega: real)
    ensures Sum(Relax(t, d, omega)) == Sum(t) + omega * (Sum(d) - Sum(t))
    ensures MomentumX(Relax(t, d, omega)) == MomentumX(t) + omega * (MomentumX(d) - MomentumX(t))
    ensures MomentumY(Relax(t, d, omega)) == MomentumY(t) + omega * (MomentumY(d) - MomentumY(t))
    ensures t == d ==> Relax(t, d, omega) == t
  {
    var r := Relax(t, d, omega);
    assert t == d ==> forall k :: 0 <= k < NSPEEDS ==> r[k] == t[k];
    SumRelax(t, d, r, omega);
    MomentumRelax(t, d, r, omega);
  }

  /** Relaxation commutes with the x and y momentum, which are linear. */
  lemma {:induction false} MomentumRelax(t: Speeds, d: Speeds, r: Speeds, omega: real)
    requires forall k :: 0 <= k < NSPEEDS ==> r[k] == t[k] + omega * (d[k] - t[k])
    ensures MomentumX(r) == MomentumX(t) + omega * (MomentumX(d) - MomentumX(t))
    ensures MomentumY(r) == MomentumY(t) + omega * (MomentumY(d) - MomentumY(t))
  {
    var tx, dx, rx := Weighted(t, true), Weighted(d, true), Weighted(r, true);
    forall k | 0 <= k < NSPEEDS
      ensures rx[k] == tx[k] + omega * (dx[k] - tx[k])
    {
      ScaledRelax(EX(k) as real, t[k], d[k], r[k], omega);
    }
    SumRelax(tx, dx, rx, omega);
    var ty, dy, ry := Weighted(t, false), Weighted(d, false), Weighted(r, false);
    forall k | 0 <= k < NSPEEDS
      ensures ry[k] == ty[k] + omega * (dy[k] - ty[k])
    {
      ScaledRelax(EY(k) as real, t[k], d[k], r[k], omega);
    }
    SumRelax(ty, dy, ry, omega);
  }

  lemma ScaledRelax(e: real, t: real, d: real, r: real, w: real)
    requires r == t + w * (d - t)
    ensures e * r == e * t + w * (e * d - e * t)
  {
  }

  /** Summing commutes with relaxation: the sum of the relaxed values is the
      relaxed sum. */
  lemma {:induction false} SumRelax(t: seq<real>, d: seq<real>, r: seq<real>, w: real)
    requires |t| == |d| == |r|
    requires forall k :: 0 <= k < |r| ==> r[k] == t[k] + w * (d[k] - t[k])
    ensures Sum(r) == Sum(t) + w * (Sum(d) - Sum(t))
    decreases |r|
  {
    if |r| == 0 {
      RelaxStep(0.0, 0.0, 0.0, 0.0, 0.0, 0.0, 0.0, 0.0, 0.0, w);
    } else {
      var n := |r| - 1;
      SumRelax(t[..n], d[..n], r[..n], w);
      SumRelaxLast(t, d, r, w);
    }
  }

  /** The inductive step of `SumRelax`: a relaxed prefix and a relaxed last
      value give a relaxed whole. */
  lemma {:induction false} SumRelaxLast(t: seq<real>, d: seq<real>, r: seq<real>, w: real)
    requires 0 < |t| == |d| == |r|
    requires Sum(r[..|r| - 1]) == Sum(t[..|r| - 1]) + w * (Sum(d[..|r| - 1]) - Sum(t[..|r| - 1]))
    requires r[|r| - 1] == t[|r| - 1] + w * (d[|r| - 1] - t[|r| - 1])
    ensures Sum(r) == Sum(t) + w * (Sum(d) - Sum(t))
  {
    var n := |r| - 1;
    RelaxStep(Sum(r), Sum(t), Sum(d), Sum(r[..n]), Sum(t[..n]), Sum(d[..n]), r[n], t[n], d[n], w);
  }

  /** Adding one relaxed value to a relaxed sum keeps it relaxed. */
  lemma RelaxStep(bigR: real, bigT: real, bigD: real, sr: real, st: real, sd: real, r: real, t: real, d: real, w: real)
    requires bigR == sr + r && bigT == st + t && bigD == sd + d
    requires sr == st + w * (sd - st)
    requires r == t + w * (d - t)
    ensures bigR == bigT + w * (bigD - bigT)
  {
  }

  /** The post-collision value of an unobstructed cell: relaxation toward the
      cell's own equilibrium, which keeps the cell's mass and both momenta for
      every omega. */
  function Collide(t: Speeds, omega: real): (r: Speeds)
    requires Density(t) != 0.0
    ensures Sum(r) == Sum(t)
    ensures MomentumX(r) == MomentumX(t) && MomentumY(r) == MomentumY(t)
  {
    var d := Equilibrium(Density(t), VelocityX(t), VelocityY(t));
    EquilibriumOfCell(t);
    RelaxConserves(t, d, omega);
    Relax(t, d, omega)
  }

  /** Relaxing towards a distribution with the same moments keeps those moments. */
  lemma {:induction false} RelaxConserves(t: Speeds, d: Speeds, omega: real)
    requires Sum(d) == Sum(t) && MomentumX(d) == MomentumX(t) && MomentumY(d) == MomentumY(t)
    ensures Sum(Relax(t, d, omega)) == Sum(t)
    ensures MomentumX(Relax(t, d, omega)) == MomentumX(t)
    ensures MomentumY(Relax(t, d, omega)) == MomentumY(t)
  {
    RelaxMoments(t, d, omega);
    RelaxToSame(Sum(t), Sum(d), omega);
    RelaxToSame(MomentumX(t), MomentumX(d), omega);
    RelaxToSame(MomentumY(t), MomentumY(d), omega);
  }

  /** The equilibrium of a cell has the cell's own density and momentum. */
  lemma {:induction false} EquilibriumOfCell(t: Speeds)
    requires Density(t) != 0.0
    ensures Sum(Equilibrium(Density(t), VelocityX(t), VelocityY(t))) == Sum(t)
    ensures MomentumX(Equilibrium(Density(t), VelocityX(t), VelocityY(t))) == MomentumX(t)
    ensures MomentumY(Equilibrium(Density(t), VelocityX(t), VelocityY(t))) == MomentumY(t)
  {
    EquilibriumMoments(Density(t), VelocityX(t), VelocityY(t));
    VelocityMoments(t);
  }

  lemma RelaxToSame(x: real, y: real, w: real)
    requires x == y
    ensures x + w * (y - x) == x
  {
  }

  /** With omega = 1 a cell is replaced by its equilibrium. */
  lemma {:induction false} CollideUnitOmega(t: Speeds)
    requires Density(t) != 0.0
    ensures Collide(t, 1.0) == Equilibrium(Density(t), VelocityX(t), VelocityY(t))
  {
  }

  /** An equilibrium distribution has the density and velocity it was built
      from, so collision leaves it unchanged for every omega. */
  lemma EquilibriumIsFixedPoint(rho: real, ux: real, uy: real, omega: real)
    requires rho != 0.0
    ensures var d := Equilibrium(rho, ux, uy);
      Density(d) == rho && VelocityX(d) == ux && VelocityY(d) == uy
      && Collide(d, omega) == d
  {
    var d := Equilibrium(rho, ux, uy);
    EquilibriumMoments(rho, ux, uy);
    VelocityFromMoments(d, rho, ux, uy);
    RelaxMoments(d, d, omega);
  }
}
