# D2Q9 lattice-Boltzmann core, modelled in Dafny

This project models the single-worker core of `d2q9-bgk.c`. That program is a
D2Q9 lattice-Boltzmann solver with BGK collision. A rectangular `nx` by `ny` grid
of cells is stored row-major, so cell `(ii, jj)` is at index `ii + jj*nx`. Each
cell holds nine distribution values, one per lattice speed, laid out as

    6 2 5
     \|/
    3-0-1
     /|\
    7 4 8

The model covers the following. Distribution values are `real` throughout.

- **Grid set-up in `initialise`** (module `Setup`, `initialise.dfy`):
  - the uniform at-rest densities of the owned rows of a buffer with one halo
    row above and one below;
  - the checks on obstacle records, which fill a global 0/1 mask;
  - the copy of the worker's own rows of that mask.
- **Row split and worker ring** (module `Decomposition`): `local_ny = ny / size`
  and the `up`/`dn` ring neighbours.
- **The four stages of `timestep`** (module `Stages`, `timestep.dfy`):
  `accelerate_flow`, `propagate`, `rebound` and `collision`.
  - Each is a method over arrays with the source's nested loops.
  - Each is proved to leave the grid equal to a pure function of the grid it
    started from (`Accelerated`, `Propagated`, `Rebounded`, `Collided`).
  - `Timestep` composes the four into `Step`.
- **Per-cell collision algebra** (module `Bgk`): local density, velocity, the
  second-order equilibrium `d_equ`, and relaxation toward it.
- **Conservation** (module `Conservation`):
  - propagation is a cyclic shift of each speed over the torus;
  - acceleration and collision keep each cell's mass;
  - so one timestep keeps `total_density`.
- **Diagnostics** (module `Diagnostics`): `total_density` as an accumulating
  loop, and the viscosity and Reynolds number of `calc_reynolds`.

Shared definitions are in module `Lattice` (`lattice.dfy`):

- the cell type `Speeds` and the parameter record `Params`;
- the flat index, the lattice vectors `EX`/`EY` and the opposite speed `Opp`;
- the sums `Sum` (one cell) and `Total` (a grid). `Sum` adds values in the
  source's loop order.

### Notes on the code

- The code computes `ny / size` (d2q9-bgk.c:447) without checking that `size`
  divides `ny`. `Decomposition.LocalNy` rounds down the same way, and
  `Decomposition.LocalNyExact` covers the divisible case.
- The comments at d2q9-bgk.c:300-308 describe a halo exchange, but the code
  never performs one, so none is modelled.

## Model

| member | source | states |
|---|---|---|
| Decomposition.Up | d2q9-bgk.c:212 | the rank above is in [0, size) and is rank - 1 modulo size, so rank 0 wraps to the last rank |
| Decomposition.Dn | d2q9-bgk.c:213 | the rank below is in [0, size) and is rank + 1, except that the last rank wraps to 0 |
| Decomposition.RingInverse | d2q9-bgk.c:212-213 | going up then down, or down then up, returns to the same rank |
| Decomposition.SingleWorkerRing | d2q9-bgk.c:212-213 | with one worker, both neighbours are worker 0 |
| Decomposition.LocalNy | d2q9-bgk.c:447 | rows per worker are at most ny, and size bands of that height fit in ny with less than one band to spare |
| Decomposition.LocalNyExact | d2q9-bgk.c:447 | when size divides ny the bands cover the grid exactly; one worker owns all ny rows |
| Setup.Uniform | d2q9-bgk.c:505-534 | the initial values 4ρ/9, four times ρ/9 and four times ρ/36 add up to exactly ρ |
| Setup.UniformAtRest | d2q9-bgk.c:505-536 | the initial cell is the equilibrium for density ρ at zero velocity and carries no momentum |
| Setup.TotalUniform | d2q9-bgk.c:505-536 | n uniform cells carry n·ρ in total |
| Setup.InitDensities | d2q9-bgk.c:505-536 | every cell of rows 1..local_ny becomes the uniform state; halo rows 0 and local_ny+1 are untouched |
| Setup.InitialisedTotal | d2q9-bgk.c:505-536 | the owned rows of an initialised buffer hold local_ny·nx·ρ |
| Setup.Check | d2q9-bgk.c:611-615 | a record is rejected iff x ∉ [0, nx-1], or else y ∉ [0, ny-1], or else blocked ≠ 1, with the reason the source reports first |
| Setup.Validate | d2q9-bgk.c:606-624 | the records are accepted iff every record passes; a failure names the first failing record, whose check gives its reason, and all records before it pass |
| Setup.ValidInGrid | d2q9-bgk.c:611-623 | an accepted record's x + y·nx lies inside the nx·ny mask |
| Setup.Marked | d2q9-bgk.c:606-624 | writing each record's flag at x + y·nx in turn leaves the last record's flag at its cell and every cell no record names as it was |
| Setup.Mask | d2q9-bgk.c:561-624 | the global mask has nx·ny entries, and a cell no accepted record names is 0 |
| Setup.MaskMarks | d2q9-bgk.c:561-624 | after loading, the mask is 1 exactly at the listed x + y·nx positions, 0 elsewhere, and holds no other value |
| Setup.MarkedZeros | d2q9-bgk.c:623 | writing flag 1 at each record's position into zeros gives 1 exactly where some record points |
| Setup.ZeroMask | d2q9-bgk.c:561-567 | every entry of the global mask becomes 0 |
| Setup.LoadObstacles | d2q9-bgk.c:561-624 | the outcome is the verdict of `Validate`, and on success the global mask equals `Mask(records)` |
| Setup.MarkStep | d2q9-bgk.c:606-624 | accepting one more record keeps the verdict Ok and adds exactly that record's flag to the mask |
| Setup.ValidatePrefix | d2q9-bgk.c:606-615 | once the records before i pass and record i fails, the verdict on the whole list is record i's failure |
| Setup.ValidateExtends | d2q9-bgk.c:606-615 | records after the first failure do not change the verdict |
| Setup.CopyLocalMask | d2q9-bgk.c:635-641 | the local mask equals the first local_ny·nx entries of the global mask |
| Lattice.CellInGrid | d2q9-bgk.c:695-713 | the flat index ii + jj·nx of an in-grid column and row lies in [0, nx·ny) |
| Lattice.CellCoords | d2q9-bgk.c:721-744 | column and row are recovered from the flat index by % and / |
| Lattice.CellCover | d2q9-bgk.c:721-744 | every flat index is the index of the column and row given by % and / |
| Lattice.Wrapped | d2q9-bgk.c:727-730 | a periodically wrapped index always lands inside the grid |
| Lattice.OppReverses | d2q9-bgk.c:761-768 | the opposite speed has the negated lattice vector, pairing twice is the identity, and only the rest speed is its own opposite |
| Lattice.SumConcat | d2q9-bgk.c:930-946 | the sum of a concatenation is the sum of the sums |
| Lattice.SumNine | d2q9-bgk.c:795-800 | a cell's sum is its nine values added in speed order |
| Lattice.TotalOfEqualMasses | d2q9-bgk.c:930-946 | two grids whose cells have pairwise equal mass have equal total |
| Bgk.MomentumNine | d2q9-bgk.c:803-817 | the momenta are speeds 1+5+8 minus 3+6+7 (x) and 2+5+6 minus 4+7+8 (y), the source's numerators |
| Bgk.EquilibriumForms | d2q9-bgk.c:820-863 | every `d_equ` value is a linear form in ρ, the momenta ρu_x, ρu_y and the second moments ρu_x², ρu_y², ρu_xu_y |
| Bgk.EquilibriumOpposites | d2q9-bgk.c:834-863 | opposite `d_equ` values differ only by the momentum along their direction: 2/3 of it on the axes, 1/6 on the diagonals |
| Bgk.EquilibriumMoments | d2q9-bgk.c:820-863 | `d_equ` built from ρ, u_x, u_y sums to ρ and carries momentum ρ·u_x and ρ·u_y |
| Bgk.VelocityMoments | d2q9-bgk.c:803-817 | density times velocity is momentum |
| Bgk.VelocityFromMoments | d2q9-bgk.c:803-817 | a cell with density ρ and momentum ρ·u has velocity u |
| Bgk.Relax | d2q9-bgk.c:866-871 | each relaxed value's distance from `d_equ` is (1 − ω) times the old distance; ω = 1 yields `d_equ` and ω = 0 leaves tmp |
| Bgk.RelaxMoments | d2q9-bgk.c:866-871 | relaxing moves mass and momentum by the same fraction ω as each value, and relaxing tmp toward itself leaves it unchanged |
| Bgk.MomentumRelax | d2q9-bgk.c:866-871 | the relaxed values' momenta are the relaxed momenta |
| Bgk.SumRelax | d2q9-bgk.c:866-871 | the sum of relaxed values is the relaxed sum |
| Bgk.RelaxConserves | d2q9-bgk.c:866-871 | relaxing toward a distribution with the same mass and momenta keeps them |
| Bgk.EquilibriumOfCell | d2q9-bgk.c:795-863 | the equilibrium of a cell has the cell's own density and momenta |
| Bgk.Collide | d2q9-bgk.c:795-871 | collision keeps a free cell's mass and both momenta, for every ω |
| Bgk.CollideUnitOmega | d2q9-bgk.c:866-871 | with ω = 1 a free cell becomes its equilibrium |
| Bgk.EquilibriumIsFixedPoint | d2q9-bgk.c:795-871 | an equilibrium has the density and velocity it was built from, and collision leaves it unchanged for every ω |
| Stages.AccelerateCellMoments | d2q9-bgk.c:705-711 | acceleration keeps the cell's mass and y momentum and adds 2·w1 + 4·w2 of x momentum |
| Stages.AccelerationMomentum | d2q9-bgk.c:689-690 | with the source's weights the injected x momentum is density·accel/3 |
| Stages.AccelerateCell | d2q9-bgk.c:705-711 | speeds 0, 2 and 4 are untouched, and each eastward speed 1, 5, 8 gains what its westward mirror 3, 7, 6 loses |
| Stages.AccelerateCellPositive | d2q9-bgk.c:699-711 | with non-negative weights, a guarded cell whose values were positive stays positive; speeds 3, 6, 7 stay above zero |
| Stages.AccelerateGuardedWest | d2q9-bgk.c:699-711 | a cell that passes the guard has speeds 3, 6 and 7 still above zero after acceleration, whatever the weights |
| Stages.Accelerated | d2q9-bgk.c:686-716 | the grid keeps its size, and every cell outside row ny−2 and every obstacle cell is left as it was |
| Stages.AccelerateAt | d2q9-bgk.c:699-712 | one cell is accelerated in place iff it passes the guard; no other cell changes |
| Stages.AccelerateFlow | d2q9-bgk.c:686-716 | the grid becomes `Accelerated` of the old grid: only guarded free cells of row ny-2 change |
| Stages.Upwind | d2q9-bgk.c:727-742 | the source neighbour of each speed lies inside the grid |
| Stages.NeighbourWrap | d2q9-bgk.c:727-730 | the source's x_e, x_w, y_n, y_s are the Euclidean wrap of ±1 steps |
| Stages.UpwindLiteral | d2q9-bgk.c:727-742 | the upwind neighbour of each of the nine speeds is the source's named neighbour index |
| Stages.PropagatedAt | d2q9-bgk.c:727-742 | cell (ii, jj) of the streamed grid is the source's nine reads from x_w, x_e, y_s, y_n, all in range |
| Stages.Propagated | d2q9-bgk.c:718-747 | the scratch grid has one streamed cell per cell of the grid |
| Stages.StreamedCell | d2q9-bgk.c:727-742 | the cell assembled from the named neighbours equals the streamed cell |
| Stages.PropagateRow | d2q9-bgk.c:723-743 | row jj of tmp becomes the streamed row; other rows of tmp are untouched |
| Stages.PropagateAt | d2q9-bgk.c:725-742 | one step of the inner loop writes cell (ii, jj) of tmp with its streamed value and nothing else |
| Stages.Propagate | d2q9-bgk.c:718-747 | tmp becomes `Propagated(cells)`; only tmp is modified |
| Stages.Bounce | d2q9-bgk.c:761-768 | the bounced cell is the source's literal swap: rest speed kept, then tmp speeds 3, 4, 1, 2, 7, 8, 5, 6 |
| Stages.BounceReverses | d2q9-bgk.c:761-768 | a bounced cell negates the streamed momentum and keeps the streamed mass of speeds 1-8 |
| Stages.ReboundRow | d2q9-bgk.c:754-770 | obstacle cells of row jj get speed k from tmp's opposite speed, with speed 0 kept; every other cell is untouched |
| Stages.ReboundAt | d2q9-bgk.c:757-769 | one step of the inner loop bounces cell c if it is an obstacle and changes no other cell |
| Stages.Rebounded | d2q9-bgk.c:749-774 | the grid keeps its size and every free cell is left as it was |
| Stages.Rebound | d2q9-bgk.c:749-774 | cells becomes `Rebounded(old cells, tmp)`; tmp is not modified |
| Stages.LocalDensity | d2q9-bgk.c:795-800 | the accumulated local density is the cell's sum |
| Stages.RelaxCell | d2q9-bgk.c:866-871 | each speed becomes tmp[k] + ω·(d_equ[k] − tmp[k]) |
| Stages.CollideCell | d2q9-bgk.c:795-871 | density, velocity, equilibrium and relaxation as the source computes them give `Collide` |
| Stages.CollisionRow | d2q9-bgk.c:789-873 | free cells of row jj become the collided streamed value; obstacle cells and other rows are untouched |
| Stages.CollideAt | d2q9-bgk.c:789-873 | one step of the inner loop collides cell c if it is free and changes no other cell |
| Stages.Collided | d2q9-bgk.c:776-877 | the grid keeps its size and every obstacle cell is left as it was |
| Stages.CollidedConserves | d2q9-bgk.c:776-877 | every free cell of the collided grid has the mass and momenta of the streamed cell it came from |
| Stages.Collision | d2q9-bgk.c:776-877 | cells becomes `Collided(old cells, tmp)`; obstacle cells are unchanged |
| Stages.Timestep | d2q9-bgk.c:677-684 | after the four stages in order, tmp is the accelerated grid streamed and cells is `Step` of the old grid |
| Stages.Step | d2q9-bgk.c:677-684 | after a timestep the grid keeps its size and each free cell holds the mass and momenta that streamed into it |
| Conservation.TotalByComponents | d2q9-bgk.c:930-946 | the cell-by-cell total equals the sum of the nine per-speed totals |
| Conservation.SumByRows | d2q9-bgk.c:930-946 | a grid's sum is the sum of its row sums |
| Conservation.LastRow | d2q9-bgk.c:930-946 | dropping the last row drops exactly the last row sum |
| Conservation.RowOfPrefix | d2q9-bgk.c:930-946 | a row above the last is unchanged when the last row is dropped |
| Conservation.RowIndex | d2q9-bgk.c:721-744 | element ii of row jj is grid element ii + jj·nx |
| Conservation.RotateIndex | d2q9-bgk.c:727-730 | element i of a rotated row comes from (i − e) mod n |
| Conservation.RotateSum | d2q9-bgk.c:718-747 | rotating a row keeps its sum |
| Conservation.RowRotated | d2q9-bgk.c:718-747 | a row streamed from the (−ex, −ey) neighbours is a rotation of the source row |
| Conservation.NeighbourIndex | d2q9-bgk.c:727-730 | wrapping an in-grid coordinate is the identity |
| Conservation.ShiftedGridSum | d2q9-bgk.c:718-747 | a grid shifted cyclically by one step in x and y has the same sum |
| Conservation.PropagatedRest | d2q9-bgk.c:734 | streaming keeps speed 0 of each cell in place |
| Conservation.PropagatedWrapsEast | d2q9-bgk.c:730-735 | tmp at column 0 receives speed 1 from column nx−1 of the same row |
| Conservation.ComponentStreamed | d2q9-bgk.c:734-742 | each speed of the streamed grid is that speed of the grid shifted by its lattice vector |
| Conservation.PropagateConservesMass | d2q9-bgk.c:718-747 | propagation keeps the total density |
| Conservation.AccelerateConservesMass | d2q9-bgk.c:686-716 | acceleration keeps the total density |
| Conservation.StepCellMass | d2q9-bgk.c:749-877 | after rebound and collision, each cell holds the mass of its streamed cell |
| Conservation.StepConservesMass | d2q9-bgk.c:677-684 | one timestep keeps the total density of the grid |
| Conservation.PositiveStreamed | d2q9-bgk.c:699-747 | with non-negative density and acceleration, a positive grid stays positive through acceleration and streaming, so every free cell has positive density for collision |
| Diagnostics.AddCell | d2q9-bgk.c:938-941 | the innermost loop adds the cell's sum to the accumulator |
| Diagnostics.AddRow | d2q9-bgk.c:936-942 | the middle loop extends the accumulated total by row jj |
| Diagnostics.TotalDensity | d2q9-bgk.c:930-946 | the accumulated total is `Total` of the grid, the measure the conservation lemmas keep |
| Diagnostics.Viscosity | d2q9-bgk.c:950 | ν = (2 − ω)/(6ω); for ω > 0, ν is positive iff ω < 2 and zero iff ω = 2 |
| Diagnostics.Reynolds | d2q9-bgk.c:948-953 | the Reynolds number times ν is the average velocity times the reference dimension |
| Diagnostics.ReynoldsSign | d2q9-bgk.c:948-953 | for 0 < ω < 2 a fluid at rest has Reynolds number 0 and a positive velocity a positive one |
| Diagnostics.ReynoldsUnitOmega | d2q9-bgk.c:950-952 | at ω = 1, ν = 1/6 and the Reynolds number is 6 times velocity times dimension |
| Diagnostics.ReynoldsExample | d2q9-bgk.c:948-953 | ω = 1, dimension 10 and average velocity 0.02 give Reynolds number 1.2 |

## Left out

- MPI process control, ranks and world size are not modelled. Neither are the
  halo exchange, scatter and gather, which exist in the source only as comments
  and unused buffers. The model is the single-worker run.
- Reading the parameter and obstacle files (`fopen`, `fscanf`) is left out.
  Obstacle records are an already-read sequence of `Record` triples.
- The `retval != 3` check, a line without three values, is left out with the
  parsing; it cannot arise on an already-read record.
- Allocation and its failure (`malloc` returning NULL) are left out.
- `die`, `usage`, `finalise`, the timers and the debug printing are left out.
- `write_values` is output formatting and is left out.
- `av_velocity` needs `sqrtf`, which has no counterpart over reals. Reynolds
  therefore takes the average velocity as a parameter.
- IEEE-754 single precision is left out. Every value is a `real`, so rounding,
  overflow, NaN and infinity are not modelled. Sums that float addition makes
  order-dependent are exact here.
- The initialisation buffer and the stage grids are not composed end to end.
  Initialisation writes rows 1..local_ny of a (local_ny+2)-row buffer. The
  stages index rows 0..ny-1 of an ny-row grid with no halo offset. The stages
  are modelled on a plain nx·ny grid.
- The obstacle mask is a plain `seq<int>`/`array<int>`, and the stages test it
  for zero or non-zero as the C does. Its 0/1 form comes from `Setup.MaskMarks`.
- Several loop bodies are split into helper methods so their proofs stay small.
  These are the `...At` methods, `StreamedCell`, the `...Row` methods,
  `LocalDensity`, `RelaxCell`, `CollideCell`, `ZeroMask`, `AddRow` and
  `AddCell`. The order of reads and writes is the source's.
- Stages.Propagated: its own contract states only the grid's size. What each
  streamed cell receives is stated by `Stages.PropagatedAt`,
  `Conservation.ComponentStreamed` and `Conservation.PropagatedRest`. Stating
  it on the function itself puts division and remainder terms into every
  proof about propagation and runs them out of resource.
- Bgk.Equilibrium, Bgk.MomentumX and Bgk.MomentumY carry no contract of their
  own. Their meaning is stated by `Bgk.EquilibriumForms`,
  `Bgk.EquilibriumMoments`, `Bgk.EquilibriumOpposites` and `Bgk.MomentumNine`.
  Nonlinear contracts on these functions would enter every collision proof.
- Stages.Collision: requires every free cell of tmp to have non-zero density. C
  divides by `local_density` and would produce infinity or NaN there; real
  division is undefined. `Conservation.PositiveStreamed` shows the requirement
  holds whenever the grid, density and acceleration are positive.
- Stages.Timestep: requires `ny >= 2`, because row `ny - 2` must exist for
  `accelerate_flow`. It carries the same non-zero-density requirement as
  `Stages.Collision`.
- Diagnostics.Reynolds: requires ω ≠ 0 and ω ≠ 2. At those values C divides by
  zero in float arithmetic.
- Setup.LoadObstacles: says nothing about the mask after a rejected record,
  because the source aborts the run there.
