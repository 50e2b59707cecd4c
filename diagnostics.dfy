/** The run's diagnostics: the total density used to check conservation, and
    the viscosity and Reynolds number derived from the relaxation parameter. */
module Diagnostics {
  import opened Lattice

  /** `total_density`: every value of every cell added into one accumulator,
      row by row, column by column, speed by speed. */
  method TotalDensity(cells: array<Speeds>, nx: int, ny: int) returns (total: real)
    requires nx >= 0 && ny >= 0 && cells.Length == nx * ny
    ensures total == Total(cells[..])
  {
    total := 0.0;
    for jj := 0 to ny
      invariant total == Total(cells[..jj * nx])
    {
      assert jj * nx + nx == (jj + 1) * nx <= ny * nx;
      total := AddRow(cells, nx, jj, total);
    }
    assert cells[..ny * nx] == cells[..];
  }

  /** The middle loop of `total_density`: the cells of row jj, west to east,
      added into the accumulator. */
  method AddRow(cells: array<Speeds>, nx: int, jj: int, acc: real) returns (total: real)
    requires nx >= 0 && 0 <= jj * nx && jj * nx + nx <= cells.Length
    requires acc == Total(cells[..jj * nx])
    ensures total == Total(cells[..jj * nx + nx])
  {
    total := acc;
    for ii := 0 to nx
      invariant total == Total(cells[..jj * nx + ii])
    {
      total := AddCell(total, cells[ii + jj * nx]);
      TotalPrefixStep(cells[..], ii + jj * nx);
    }
  }

  /** The innermost loop of `total_density`: the nine values of one cell added
      into the accumulator. */
  method AddCell(acc: real, t: Speeds) returns (total: real)
    ensures total == acc + Sum(t)
  {
    total := acc;
    for kk := 0 to NSPEEDS
      invariant total == acc + Sum(t[..kk])
    {
      SumPrefixStep(t, kk);
      total := total + t[kk];
    }
    assert t[..NSPEEDS] == t;
  }

  /** Kinematic viscosity of the BGK fluid for relaxation parameter `omega`. */
  function Viscosity(omega: real): (nu: real)
    requires omega != 0.0
    ensures nu == (2.0 - omega) / (6.0 * omega)
    ensures omega > 0.0 ==> (nu > 0.0 <==> omega < 2.0)
    ensures omega > 0.0 ==> (nu == 0.0 <==> omega == 2.0)
  {
    ViscosityForm(omega);
    1.0 / 6.0 * (2.0 / omega - 1.0)
  }

  lemma ViscosityForm(omega: real)
    requires omega != 0.0
    ensures 1.0 / 6.0 * (2.0 / omega - 1.0) == (2.0 - omega) / (6.0 * omega)
  {
    var q := 2.0 / omega;
    assert q * omega == 2.0;
    var r := (2.0 - omega) / (6.0 * omega);
    assert r * (6.0 * omega) == 2.0 - omega;
    assert (q - 1.0) * omega == 2.0 - omega;
  }

  /** `calc_reynolds`: the average velocity times the characteristic length,
      over the viscosity. */
  function Reynolds(avVelocity: real, reynoldsDim: int, omega: real): (re: real)
    requires omega != 0.0 && omega != 2.0
    ensures re * Viscosity(omega) == avVelocity * reynoldsDim as real
  {
    avVelocity * reynoldsDim as real / Viscosity(omega)
  }

  /** For 0 < omega < 2 the Reynolds number has the sign of the flow: a fluid
      at rest has none, and a positive velocity a positive one. */
  lemma ReynoldsSign(avVelocity: real, reynoldsDim: int, omega: real)
    requires 0.0 < omega < 2.0 && reynoldsDim > 0
    ensures avVelocity == 0.0 ==> Reynolds(avVelocity, reynoldsDim, omega) == 0.0
    ensures avVelocity > 0.0 ==> Reynolds(avVelocity, reynoldsDim, omega) > 0.0
  {
    var nu := Viscosity(omega);
    var re := Reynolds(avVelocity, reynoldsDim, omega);
    assert re * nu == avVelocity * reynoldsDim as real;
    if avVelocity > 0.0 {
      assert avVelocity * reynoldsDim as real > 0.0;
    }
  }

  /** At omega = 1 the viscosity is 1/6, so the Reynolds number is six times
      velocity times length. */
  lemma ReynoldsUnitOmega(avVelocity: real, reynoldsDim: int)
    ensures Viscosity(1.0) == 1.0 / 6.0
    ensures Reynolds(avVelocity, reynoldsDim, 1.0) == 6.0 * avVelocity * reynoldsDim as real
  {
  }

  /** A worked case: omega = 1, length 10 and average velocity 0.02 give a
      Reynolds number of 1.2. */
  lemma ReynoldsExample()
    ensures Reynolds(0.02, 10, 1.0) == 1.2
  {
    ReynoldsUnitOmega(0.02, 10);
  }
}
