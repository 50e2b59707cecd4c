/** Row decomposition of the grid over `size` workers and the ring of
    worker ranks used for the periodic y boundary. */
module Decomposition {

  /** The master rank. */
  const MASTER := 0

  /** Rank of the worker above `rank`: rank 0 wraps round to the last rank. */
  function Up(rank: int, size: int): (up: int)
    requires 0 <= rank < size
    ensures 0 <= up < size
    ensures up == (rank - 1) % size
  {
    if rank == MASTER then rank + size - 1 else rank - 1
  }

  /** Rank of the worker below `rank`: the last rank wraps round to rank 0. */
  function Dn(rank: int, size: int): (dn: int)
    requires 0 <= rank < size
    ensures 0 <= dn < size
    ensures dn == if rank == size - 1 then 0 else rank + 1
  {
    (rank + 1) % size
  }

  /** Going up and then down, or down and then up, returns to the same rank. */
  lemma RingInverse(rank: int, size: int)
    requires 0 <= rank < size
    ensures Dn(Up(rank, size), size) == rank
    ensures Up(Dn(rank, size), size) == rank
  {
  }

  /** A single worker is its own neighbour on both sides. */
  lemma SingleWorkerRing(rank: int)
    requires 0 <= rank < 1
    ensures Up(rank, 1) == 0 && Dn(rank, 1) == 0
  {
  }

  /** Rows owned by each worker: `ny / size`, rounded down. */
  function LocalNy(ny: int, size: int): (localNy: int)
    requires ny >= 0 && size > 0
    ensures 0 <= localNy <= ny
    ensures localNy * size <= ny < (localNy + 1) * size
  {
    ny / size
  }

  /** When `size` divides `ny` the bands cover the grid exactly; one worker owns every row. */
  lemma LocalNyExact(ny: int, size: int)
    requires ny >= 0 && size > 0 && ny % size == 0
    ensures LocalNy(ny, size) * size == ny
    ensures size == 1 ==> LocalNy(ny, size) == ny
  {
  }
}
