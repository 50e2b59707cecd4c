/** The grid set-up done by `initialise`: the uniform at-rest densities of the
    owned rows, the validation of the obstacle records into a 0/1 mask of the
    whole grid, and the copy of the worker's own rows of that mask. */
module Setup {
  import opened Lattice
  import opened Bgk

  // ----------------------------------------------------------------- densities

  /** The initial state of a cell for density `density`: 4/9 of it at rest,
      1/9 on each axis speed and 1/36 on each diagonal speed. The nine values
      add up to exactly the requested density. */
  function Uniform(density: real): (u: Speeds)
    ensures Sum(u) == density
  {
    var w0 := density * 4.0 / 9.0;
    var w1 := density / 9.0;
    var w2 := density / 36.0;
    SumNine([w0, w1, w1, w1, w1, w2, w2, w2, w2]);
    [w0, w1, w1, w1, w1, w2, w2, w2, w2]
  }

  /** The initial state is the equilibrium of a fluid at rest: no momentum, and
      collision leaves it where it is. */
  lemma UniformAtRest(density: real)
    ensures Uniform(density) == Equilibrium(density, 0.0, 0.0)
    ensures MomentumX(Uniform(density)) == 0.0 && MomentumY(Uniform(density)) == 0.0
  {
    var e := Equilibrium(density, 0.0, 0.0);
    assert forall k :: 0 <= k < NSPEEDS ==> e[k] == Uniform(density)[k];
    MomentumNine(Uniform(density));
  }

  /** A run of `n` uniform cells carries `n` times the density. */
  lemma {:induction false} TotalUniform(g: seq<Speeds>, density: real)
    requires forall c :: 0 <= c < |g| ==> g[c] == Uniform(density)
    ensures Total(g) == |g| as real * density
    decreases |g|
  {
    if |g| > 0 {
      var n := |g| - 1;
      TotalUniform(g[..n], density);
      assert Total(g) == n as real * density + density;
    }
  }

  /** The density loop of `initialise`: rows 1..localNy of a buffer with one
      halo row above and one below are set to `Uniform(density)`; the halo
      rows are not written. */
  method InitDensities(cells: array<Speeds>, nx: int, localNy: int, density: real)
    requires nx >= 0 && localNy >= 0
    requires cells.Length == (localNy + 2) * nx
    modifies cells
    ensures forall c :: 0 <= c < cells.Length ==>
      cells[c] == if nx <= c < (localNy + 1) * nx then Uniform(density) else old(cells[c])
  {
    for jj := 1 to localNy + 1
      invariant forall c :: 0 <= c < cells.Length ==>
        cells[c] == if nx <= c < jj * nx then Uniform(density) else old(cells[c])
    {
      ghost var row := jj * nx;
      assert row + nx == (jj + 1) * nx;
      assert row + nx <= cells.Length by {
        assert (localNy + 2) * nx == (localNy + 1) * nx + nx;
        MulMonotone(jj + 1, localNy + 1, nx);
      }
      for ii := 0 to nx
        invariant forall c :: 0 <= c < cells.Length ==>
          cells[c] == if nx <= c < row + ii then Uniform(density) else old(cells[c])
      {
        cells[ii + jj * nx] := Uniform(density);
      }
    }
  }

  lemma MulMonotone(a: int, b: int, n: int)
    requires a <= b && n >= 0
    ensures a * n <= b * n
  {
  }

  /** The cells `InitDensities` writes hold `localNy * nx` times the density in all. */
  lemma InitialisedTotal(g: seq<Speeds>, nx: int, localNy: int, density: real)
    requires nx >= 0 && localNy >= 0 && |g| == (localNy + 2) * nx
    requires forall c :: nx <= c < (localNy + 1) * nx ==> g[c] == Uniform(density)
    ensures Total(g[nx..(localNy + 1) * nx]) == (localNy * nx) as real * density
  {
    var owned := g[nx..(localNy + 1) * nx];
    assert |owned| == localNy * nx;
    TotalUniform(owned, density);
  }

  // ----------------------------------------------------------------- obstacles

  datatype Option<T> = None | Some(value: T)

  /** One line of the obstacle file: column, row and blocked flag. */
  datatype Record = Record(x: int, y: int, blocked: int)

  /** Why `initialise` gives up on an obstacle record. */
  datatype RecordError = XOutOfRange | YOutOfRange | BlockedNotOne

  /** The outcome of reading the records: all accepted, or the first rejected
      record and the reason. */
  datatype Status = Ok | Fail(at: int, why: RecordError)

  /** Where a record lands in the row-major mask. */
  function Position(r: Record, nx: int): int
  {
    Cell(nx, r.x, r.y)
  }

  /** A record the checks accept. */
  predicate ValidRecord(r: Record, nx: int, ny: int)
  {
    0 <= r.x <= nx - 1 && 0 <= r.y <= ny - 1 && r.blocked == 1
  }

  /** The three checks on one record, in the order the source makes them. */
  function Check(r: Record, nx: int, ny: int): (e: Option<RecordError>)
    ensures e == None <==> ValidRecord(r, nx, ny)
    ensures e == Some(XOutOfRange) <==> r.x < 0 || r.x > nx - 1
    ensures e == Some(YOutOfRange) <==> 0 <= r.x <= nx - 1 && (r.y < 0 || r.y > ny - 1)
    ensures e == Some(BlockedNotOne) <==> 0 <= r.x <= nx - 1 && 0 <= r.y <= ny - 1 && r.blocked != 1
  {
    if r.x < 0 || r.x > nx - 1 then Some(XOutOfRange)
    else if r.y < 0 || r.y > ny - 1 then Some(YOutOfRange)
    else if r.blocked != 1 then Some(BlockedNotOne)
    else None
  }

  /** The verdict on a list of records read in order: the first record that
      fails a check stops the reading. */
  function Validate(records: seq<Record>, nx: int, ny: int): (s: Status)
    ensures s == Ok <==> forall i :: 0 <= i < |records| ==> ValidRecord(records[i], nx, ny)
    ensures s.Fail? ==> 0 <= s.at < |records| && Check(records[s.at], nx, ny) == Some(s.why)
    ensures s.Fail? ==> forall i :: 0 <= i < s.at ==> ValidRecord(records[i], nx, ny)
  {
    if |records| == 0 then Ok
    else
      var n := |records| - 1;
      match Validate(records[..n], nx, ny)
      case Fail(at, why) => Fail(at, why)
      case Ok =>
        match Check(records[n], nx, ny)
        case None => Ok
        case Some(why) => Fail(n, why)
  }

  /** The mask after setting `mask[x + y*nx] := blocked` for each record in
      turn: the last record's cell holds its flag, and a cell no record names
      keeps its value. */
  function Marked(mask: seq<int>, records: seq<Record>, nx: int): (m: seq<int>)
    requires forall i :: 0 <= i < |records| ==> 0 <= Position(records[i], nx) < |mask|
    ensures |m| == |mask|
    ensures |records| > 0 ==> m[Position(records[|records| - 1], nx)] == records[|records| - 1].blocked
    ensures forall c :: 0 <= c < |mask| && (forall i :: 0 <= i < |records| ==> Position(records[i], nx) != c) ==>
      m[c] == mask[c]
    decreases |records|
  {
    if |records| == 0 then mask
    else
      var n := |records| - 1;
      Marked(mask, records[..n], nx)[Position(records[n], nx) := records[n].blocked]
  }

  /** Every accepted record lies inside the grid. */
  lemma ValidInGrid(records: seq<Record>, nx: int, ny: int)
    requires forall i :: 0 <= i < |records| ==> ValidRecord(records[i], nx, ny)
    ensures forall i :: 0 <= i < |records| ==> 0 <= Position(records[i], nx) < nx * ny
  {
    forall i | 0 <= i < |records|
      ensures 0 <= Position(records[i], nx) < nx * ny
    {
      CellInGrid(nx, ny, records[i].x, records[i].y);
    }
  }

  /** The global obstacle mask built from accepted records: zero everywhere,
      then each record's cell set to its flag, so a cell no record names is
      free. */
  function Mask(records: seq<Record>, nx: int, ny: int): (m: seq<int>)
    requires nx >= 0 && ny >= 0
    requires forall i :: 0 <= i < |records| ==> ValidRecord(records[i], nx, ny)
    ensures |m| == nx * ny
    ensures forall c :: 0 <= c < nx * ny && (forall i :: 0 <= i < |records| ==> Position(records[i], nx) != c) ==>
      m[c] == 0
  {
    ValidInGrid(records, nx, ny);
    Marked(seq(nx * ny, c => 0), records, nx)
  }

  /** A mask of zeros marked with blocked flags of 1 is 1 exactly at the
      records' cells and 0 everywhere else. */
  lemma {:induction false} MarkedZeros(n: int, records: seq<Record>, nx: int, c: int)
    requires n >= 0 && 0 <= c < n
    requires forall i :: 0 <= i < |records| ==> 0 <= Position(records[i], nx) < n && records[i].blocked == 1
    ensures Marked(seq(n, c => 0), records, nx)[c] ==
      if exists i :: 0 <= i < |records| && Position(records[i], nx) == c then 1 else 0
    decreases |records|
  {
    if |records| > 0 {
      var k := |records| - 1;
      var prefix := records[..k];
      MarkedZeros(n, prefix, nx, c);
      if Position(records[k], nx) != c {
        if exists i :: 0 <= i < |records| && Position(records[i], nx) == c {
          var i :| 0 <= i < |records| && Position(records[i], nx) == c;
          assert prefix[i] == records[i];
        }
        assert forall i :: 0 <= i < k ==> prefix[i] == records[i];
      }
    }
  }

  /** On success the mask is 1 exactly at the listed cells and 0 elsewhere. */
  lemma MaskMarks(records: seq<Record>, nx: int, ny: int)
    requires nx >= 0 && ny >= 0
    requires forall i :: 0 <= i < |records| ==> ValidRecord(records[i], nx, ny)
    ensures forall c :: 0 <= c < nx * ny ==>
      (Mask(records, nx, ny)[c] == 1 <==> exists i :: 0 <= i < |records| && Position(records[i], nx) == c)
    ensures forall c :: 0 <= c < nx * ny ==> Mask(records, nx, ny)[c] == 0 || Mask(records, nx, ny)[c] == 1
  {
    ValidInGrid(records, nx, ny);
    forall c | 0 <= c < nx * ny
      ensures Mask(records, nx, ny)[c] == 1 <==> exists i :: 0 <= i < |records| && Position(records[i], nx) == c
      ensures Mask(records, nx, ny)[c] == 0 || Mask(records, nx, ny)[c] == 1
    {
      MarkedZeros(nx * ny, records, nx, c);
    }
  }

  /** The obstacle part of `initialise`: zero the global mask row by row, then
      check each record in turn, stopping at the first rejected one, and set
      its cell to its flag. */
  method LoadObstacles(total: array<int>, records: seq<Record>, nx: int, ny: int) returns (status: Status)
    requires nx >= 0 && ny >= 0 && total.Length == nx * ny
    modifies total
    ensures status == Validate(records, nx, ny)
    ensures status == Ok ==> total[..] == Mask(records, nx, ny)
  {
    ZeroMask(total, nx, ny);
    ghost var zeros := total[..];
    for i := 0 to |records|
      invariant Validate(records[..i], nx, ny) == Ok
      invariant forall j :: 0 <= j < i ==> 0 <= Position(records[j], nx) < |zeros|
      invariant total[..] == Marked(zeros, records[..i], nx)
    {
      var r := records[i];
      if r.x < 0 || r.x > nx - 1 {
        ValidatePrefix(records, i, nx, ny);
        return Fail(i, XOutOfRange);
      }
      if r.y < 0 || r.y > ny - 1 {
        ValidatePrefix(records, i, nx, ny);
        return Fail(i, YOutOfRange);
      }
      if r.blocked != 1 {
        ValidatePrefix(records, i, nx, ny);
        return Fail(i, BlockedNotOne);
      }
      CellInGrid(nx, ny, r.x, r.y);
      total[r.x + r.y * nx] := r.blocked;
      MarkStep(zeros, records, i, nx, ny);
    }
    assert records[..|records|] == records;
    status := Ok;
  }

  /** The zero-fill loop of `initialise` over the global mask. */
  method ZeroMask(total: array<int>, nx: int, ny: int)
    requires nx >= 0 && ny >= 0 && total.Length == nx * ny
    modifies total
    ensures total[..] == seq(nx * ny, c => 0)
  {
    for jj := 0 to ny
      invariant forall c :: 0 <= c < jj * nx ==> total[c] == 0
    {
      ghost var row := jj * nx;
      assert row + nx <= total.Length by {
        MulMonotone(jj + 1, ny, nx);
      }
      for ii := 0 to nx
        invariant forall c :: 0 <= c < row + ii ==> total[c] == 0
      {
        total[ii + jj * nx] := 0;
      }
      assert row + nx == (jj + 1) * nx;
    }
    assert ny * nx == nx * ny;
  }

  /** One more accepted record: the verdict stays `Ok` and the mask gains its flag. */
  lemma MarkStep(zeros: seq<int>, records: seq<Record>, i: int, nx: int, ny: int)
    requires 0 <= i < |records| && |zeros| == nx * ny && nx >= 0 && ny >= 0
    requires Validate(records[..i], nx, ny) == Ok
    requires ValidRecord(records[i], nx, ny)
    ensures Validate(records[..i + 1], nx, ny) == Ok
    ensures forall j :: 0 <= j <= i ==> 0 <= Position(records[j], nx) < |zeros|
    ensures Marked(zeros, records[..i + 1], nx) ==
      Marked(zeros, records[..i], nx)[Position(records[i], nx) := records[i].blocked]
  {
    var prefix := records[..i + 1];
    assert prefix[..i] == records[..i];
    ValidInGrid(prefix, nx, ny);
    assert forall j :: 0 <= j <= i ==> prefix[j] == records[j];
  }

  /** Once the records before `i` pass and record `i` fails, the verdict on the
      whole list is record `i`'s failure. */
  lemma {:induction false} ValidatePrefix(records: seq<Record>, i: int, nx: int, ny: int)
    requires 0 <= i < |records|
    requires Validate(records[..i], nx, ny) == Ok
    requires Check(records[i], nx, ny).Some?
    ensures Validate(records, nx, ny) == Fail(i, Check(records[i], nx, ny).value)
    decreases |records| - i
  {
    assert records[..i + 1][..i] == records[..i];
    if i + 1 < |records| {
      ValidateExtends(records, i + 1, nx, ny);
    } else {
      assert records[..i + 1] == records;
    }
  }

  /** A failure in a prefix is the failure of every longer list. */
  lemma {:induction false} ValidateExtends(records: seq<Record>, j: int, nx: int, ny: int)
    requires 0 <= j <= |records|
    requires Validate(records[..j], nx, ny).Fail?
    ensures Validate(records, nx, ny) == Validate(records[..j], nx, ny)
    decreases |records| - j
  {
    if j < |records| {
      assert records[..j + 1][..j] == records[..j];
      ValidateExtends(records, j + 1, nx, ny);
    } else {
      assert records[..j] == records;
    }
  }

  /** The local-mask copy of `initialise`: the first `localNy` rows of the global mask. */
  method CopyLocalMask(total: array<int>, local: array<int>, nx: int, localNy: int)
    requires nx >= 0 && 0 <= localNy && local.Length == localNy * nx && localNy * nx <= total.Length
    requires local != total
    modifies local
    ensures local[..] == total[..localNy * nx]
  {
    for jj := 0 to localNy
      invariant forall c :: 0 <= c < jj * nx ==> local[c] == total[c]
    {
      ghost var row := jj * nx;
      assert row + nx <= local.Length by {
        MulMonotone(jj + 1, localNy, nx);
      }
      for ii := 0 to nx
        invariant forall c :: 0 <= c < row + ii ==> local[c] == total[c]
      {
        local[ii + jj * nx] := total[ii + jj * nx];
      }
      assert row + nx == (jj + 1) * nx;
    }
  }
}
