/** The 13-direction stencil of the distance-field sweep: the direction
    table, its linear offsets and Euclidean lengths, the table-building loop,
    the min_k boundary skip and where the neighbour reads land. */
module Stencil {
  import opened Grid

  /** Number of stencil entries (max_k once the table is built). */
  const MaxK: nat := 13

  /** The 27 directions of the 3x3x3 block enumerated z, then y, then x, each
      ascending from -1; position 13 is (0,0,0). */
  function Position(c: Cell): int {
    9 * (c.z + 1) + 3 * (c.y + 1) + (c.x + 1)
  }

  predicate IsUnit(c: Cell) {
    -1 <= c.x <= 1 && -1 <= c.y <= 1 && -1 <= c.z <= 1
  }

  /** The test the table loop applies: the direction points to a cell that the
      ascending scan has already visited. */
  predicate Precedes(c: Cell) {
    c.z < 0 || (c.z == 0 && c.y < 0) || (c.z == 0 && c.y == 0 && c.x < 0)
  }

  /** The table the loop of sweep builds, written out: the first 13
      directions of the enumeration, those that precede the centre. */
  const Directions: seq<Cell> := [
    Cell(-1, -1, -1), Cell(0, -1, -1), Cell(1, -1, -1),
    Cell(-1, 0, -1), Cell(0, 0, -1), Cell(1, 0, -1),
    Cell(-1, 1, -1), Cell(0, 1, -1), Cell(1, 1, -1),
    Cell(-1, -1, 0), Cell(0, -1, 0), Cell(1, -1, 0),
    Cell(-1, 0, 0)]

  /** Stencil entry k. */
  function Direction(k: nat): Cell
    requires k < MaxK
  {
    Directions[k]
  }

  /** offsets[k]: the linear offset ((dz*ydim)+dy)*xdim+dx of entry k. */
  function Offset(d: Dims, k: nat): (o: int)
    requires k < MaxK
    ensures d.xdim >= 1 && d.ydim >= 1 && (k <= 8 ==> d.ydim >= 2) ==> o <= 0
  {
    var c := Direction(k);
    DirectionIsStencil(k);
    TableLayout(k);
    if k <= 8 && d.xdim >= 1 && d.ydim >= 2 then
      MulLeq(c.y - d.ydim, -1, d.xdim);
      Linear(d, c.x, c.y, c.z)
    else
      Linear(d, c.x, c.y, c.z)
  }

  /** glm::length of a direction whose squared length is 1, 2 or 3, taken as
      the single-precision value the source stores (sqrt(2) and sqrt(3) rounded
      to float). */
  function UnitLength(c: Cell): real
    requires IsUnit(c)
  {
    var n := c.x * c.x + c.y * c.y + c.z * c.z;
    if n <= 1 then 1.0
    else if n == 2 then 1.41421353816986083984375
    else 1.73205077648162841796875
  }

  /** diag[k]: the length of entry k. */
  function Diag(k: nat): (r: real)
    requires k < MaxK
    ensures 1.0 <= r < 2.0
    ensures r == 1.0 <==> Direction(k).x * Direction(k).x + Direction(k).y * Direction(k).y + Direction(k).z * Direction(k).z == 1
  {
    DirectionIsStencil(k);
    UnitLength(Direction(k))
  }

  /** The two tables sweep fills before its passes: offsets[k] and diag[k]. */
  datatype Table = Table(offsets: seq<int>, diag: seq<real>)

  /** t holds the stencil of grid d. The entries are matched on Offset(d, k)
      and Diag(k), so that reading the table does not unfold the arithmetic. */
  predicate IsTable(d: Dims, t: Table) {
    |t.offsets| == MaxK && |t.diag| == MaxK
    && (forall k {:trigger Offset(d, k)} :: 0 <= k < MaxK ==> t.offsets[k] == Offset(d, k))
    && (forall k {:trigger Diag(k)} :: 0 <= k < MaxK ==> t.diag[k] == Diag(k))
  }

  /** The tables of grid d, as values. */
  function StencilTable(d: Dims): (t: Table)
    ensures IsTable(d, t)
  {
    Table(seq(MaxK, (k: int) requires 0 <= k < MaxK => Offset(d, k)),
          seq(MaxK, (k: int) requires 0 <= k < MaxK => Diag(k)))
  }

  /** The tables of a grid are unique: any table holding its stencil is StencilTable(d). */
  lemma TableUnique(d: Dims, t: Table)
    requires IsTable(d, t)
    ensures t == StencilTable(d)
  {
    var s := StencilTable(d);
    forall k | 0 <= k < MaxK ensures t.offsets[k] == s.offsets[k] && t.diag[k] == s.diag[k] {
      assert t.offsets[k] == Offset(d, k) && t.diag[k] == Diag(k);
    }
  }

  /** min_k = 9·[z==0] + 3·[y==0] + [x==0]: the first entry tried at a cell. */
  function MinK(c: Cell): (m: nat)
    ensures m <= MaxK
    ensures m == MaxK <==> c.x == 0 && c.y == 0 && c.z == 0
  {
    (if c.z == 0 then 9 else 0) + (if c.y == 0 then 3 else 0) + (if c.x == 0 then 1 else 0)
  }

  /** Grids on which the sweep's neighbour reads stay inside the vectors. */
  predicate SweepSafe(d: Dims) {
    d.xdim == 0 || d.ydim != 1 || d.zdim <= 1
  }

  /** Every table entry is a unit direction that precedes the centre, and it
      sits at its own position in the z, y, x enumeration. */
  lemma DirectionIsStencil(k: nat)
    requires k < MaxK
    ensures IsUnit(Direction(k)) && Precedes(Direction(k))
    ensures Position(Direction(k)) == k
  {
    assert k in {0, 1, 2, 3, 4, 5, 6, 7, 8, 9, 10, 11, 12};
  }

  /** Conversely, every unit direction preceding the centre is in the table. */
  lemma StencilIsComplete(c: Cell)
    requires IsUnit(c) && Precedes(c)
    ensures 0 <= Position(c) < MaxK && Direction(Position(c)) == c
  {
  }

  /** The entry a preceding unit direction lands in holds its offset and length. */
  lemma EntryOf(d: Dims, c: Cell)
    requires IsUnit(c) && Precedes(c)
    ensures 0 <= Position(c) < MaxK
    ensures Offset(d, Position(c)) == Linear(d, c.x, c.y, c.z) && Diag(Position(c)) == UnitLength(c)
  {
    StencilIsComplete(c);
  }

  /** Table order is the z, then y, then x ascending enumeration. */
  lemma {:induction false} DirectionsAscend(j: nat, k: nat)
    requires j < k < MaxK
    ensures var a, b := Direction(j), Direction(k);
      a.z < b.z || (a.z == b.z && a.y < b.y) || (a.z == b.z && a.y == b.y && a.x < b.x)
  {
    DirectionIsStencil(j);
    DirectionIsStencil(k);
  }

  /** Entries 0-8 have dz = -1, 9-11 have dz = 0 and dy = -1, entry 12 is (-1,0,0). */
  lemma TableLayout(k: nat)
    requires k < MaxK
    ensures k <= 8 ==> Direction(k).z == -1
    ensures 9 <= k <= 11 ==> Direction(k).z == 0 && Direction(k).y == -1
    ensures k == 12 ==> Direction(k) == Cell(-1, 0, 0)
  {
    assert k in {0, 1, 2, 3, 4, 5, 6, 7, 8, 9, 10, 11, 12};
  }

  /** diag is the exact length for axis steps and grows with the squared length. */
  lemma DiagOrdered(j: nat, k: nat)
    requires j < MaxK && k < MaxK
    ensures var a, b := Direction(j), Direction(k);
      (a.x * a.x + a.y * a.y + a.z * a.z < b.x * b.x + b.y * b.y + b.z * b.z ==> Diag(j) < Diag(k))
      && (a.x * a.x + a.y * a.y + a.z * a.z == 1 ==> Diag(j) == 1.0)
  {
    DirectionIsStencil(j);
    DirectionIsStencil(k);
  }

  /** The table-building loop of sweep: walks the 3x3x3 block in z, y, x order
      and appends every direction that precedes the centre. */
  method BuildStencil(d: Dims) returns (offsets: array<int>, diag: array<real>, maxK: nat)
    ensures fresh(offsets) && fresh(diag)
    ensures maxK == MaxK && offsets.Length == MaxK && diag.Length == MaxK
    ensures forall k :: 0 <= k < MaxK ==> offsets[k] == Offset(d, k) && diag[k] == Diag(k)
    ensures IsTable(d, Table(offsets[..], diag[..]))
  {
    offsets := new int[MaxK];
    diag := new real[MaxK];
    maxK := 0;
    for z := -1 to 2
      invariant maxK == Clamp(9 * (z + 1))
      invariant forall k :: 0 <= k < maxK ==> offsets[k] == Offset(d, k) && diag[k] == Diag(k)
    {
      for y := -1 to 2
        invariant maxK == Clamp(9 * (z + 1) + 3 * (y + 1))
        invariant forall k :: 0 <= k < maxK ==> offsets[k] == Offset(d, k) && diag[k] == Diag(k)
      {
        maxK := StencilRow(d, offsets, diag, maxK, y, z);
      }
    }
  }

  /** The x loop of the table-building loop, for row y of plane z. */
  method StencilRow(d: Dims, offsets: array<int>, diag: array<real>, maxK0: nat, y: int, z: int) returns (maxK: nat)
    requires offsets != diag as object && offsets.Length == MaxK && diag.Length == MaxK
    requires -1 <= y <= 1 && -1 <= z <= 1
    requires maxK0 == Clamp(9 * (z + 1) + 3 * (y + 1))
    requires forall k :: 0 <= k < maxK0 ==> offsets[k] == Offset(d, k) && diag[k] == Diag(k)
    modifies offsets, diag
    ensures maxK == Clamp(9 * (z + 1) + 3 * (y + 2))
    ensures forall k :: 0 <= k < maxK ==> offsets[k] == Offset(d, k) && diag[k] == Diag(k)
  {
    maxK := maxK0;
    for x := -1 to 2
      invariant maxK == Clamp(Position(Cell(x, y, z)))
      invariant forall k :: 0 <= k < maxK ==> offsets[k] == Offset(d, k) && diag[k] == Diag(k)
    {
      if Precedes(Cell(x, y, z)) {
        EntryOf(d, Cell(x, y, z));
        diag[maxK] := UnitLength(Cell(x, y, z));
        offsets[maxK] := Linear(d, x, y, z);
        maxK := maxK + 1;
      }
    }
  }

  /** Number of table entries appended once the enumeration reaches position p. */
  function Clamp(p: int): nat {
    if p < 0 then 0 else if p < MaxK then p else MaxK
  }

  /** With the source's min_k skip, every read of the ascending pass lies in
      [0, index], inside the vectors. It need not be a neighbour of the cell:
      at x == 0 the entries with dx == -1 wrap to the far end of an earlier
      row (RowWrapRead), and a zero offset reads the cell itself (SelfRead). */
  lemma NeighbourBehind(d: Dims, c: Cell, k: nat)
    requires SweepSafe(d) && InGrid(d, c) && MinK(c) <= k < MaxK
    ensures 0 <= Index(d, c) + Offset(d, k) <= Index(d, c)
  {
    TableLayout(k);
    assert k <= 8 ==> c.z >= 1 && d.ydim >= 2;
    NeighbourNotBelowZero(d, c, k);
  }

  /** With the min_k skip and SweepSafe, no read lands before index 0. */
  lemma NeighbourNotBelowZero(d: Dims, c: Cell, k: nat)
    requires SweepSafe(d) && InGrid(d, c) && MinK(c) <= k < MaxK
    ensures 0 <= Index(d, c) + Offset(d, k)
  {
    var dir := Direction(k);
    DirectionIsStencil(k);
    TableLayout(k);
    var r := c.z * d.ydim + c.y;
    var row := r + dir.z * d.ydim + dir.y;
    assert Index(d, c) == r * d.xdim + c.x;
    assert Offset(d, k) == (dir.z * d.ydim + dir.y) * d.xdim + dir.x;
    MulAdd(r, dir.z * d.ydim + dir.y, d.xdim);
    RowNotBelowZero(d, c, k);
    ColumnNotBelowZero(d.xdim, row, c.x, dir.x);
  }

  lemma ColumnNotBelowZero(xdim: nat, row: int, x: int, dx: int)
    requires 0 <= x < xdim && -1 <= dx && row >= 0 && (row >= 1 || x + dx >= 0)
    ensures row * xdim + x + dx >= 0
  {
    if row >= 1 {
      MulLeq(1, row, xdim);
    }
  }

  /** The row the neighbour lies in, (z + dz) * ydim + y + dy, is not before
      row 0, and is row 0 only when the column does not go below 0. */
  lemma RowNotBelowZero(d: Dims, c: Cell, k: nat)
    requires SweepSafe(d) && InGrid(d, c) && MinK(c) <= k < MaxK
    ensures var dir := Direction(k);
      var row := c.z * d.ydim + c.y + dir.z * d.ydim + dir.y;
      row >= 0 && (row >= 1 || c.x + dir.x >= 0)
  {
    var dir := Direction(k);
    DirectionIsStencil(k);
    TableLayout(k);
    var r := c.z * d.ydim + c.y;
    if c.z >= 1 {
      MulLeq(1, c.z, d.ydim);
      assert r >= d.ydim;
    }
    if k <= 8 {
      assert c.z >= 1 && d.ydim >= 2;
      if c.z >= 2 {
        MulLeq(2, c.z, d.ydim);
      }
    } else if k <= 11 {
      assert c.z >= 1 ==> d.ydim >= 2;
    }
  }

  lemma MulAdd(a: int, b: int, c: int)
    ensures (a + b) * c == a * c + b * c
  {
  }

  /** Without SweepSafe the reads leave the vectors: on a grid with ydim == 1
      and zdim >= 2 the cell (0,0,1) reads index -1 through entry 9, which
      min_k does not skip there. */
  lemma FlatGridReadsBeforeStart(d: Dims)
    requires d.xdim >= 1 && d.ydim == 1 && d.zdim >= 2
    ensures InGrid(d, Cell(0, 0, 1)) && MinK(Cell(0, 0, 1)) <= 9
    ensures Index(d, Cell(0, 0, 1)) + Offset(d, 9) == -1
  {
  }

  /** min_k skips only a prefix of the table, so at x == 0 entry 3, the
      direction (-1,0,-1), is still tried: from cell (0,1,1) it reads the last
      cell of the first row, (xdim-1,0,0), and not the cell (-1,1,0) the
      direction names, which lies outside the grid. */
  lemma RowWrapRead(d: Dims)
    requires d.xdim >= 1 && d.ydim >= 2 && d.zdim >= 2
    ensures InGrid(d, Cell(0, 1, 1)) && MinK(Cell(0, 1, 1)) <= 3 && Direction(3) == Cell(-1, 0, -1)
    ensures InGrid(d, Cell(d.xdim - 1, 0, 0)) && !InGrid(d, Cell(0 + Direction(3).x, 1 + Direction(3).y, 1 + Direction(3).z))
    ensures Index(d, Cell(0, 1, 1)) + Offset(d, 3) == Index(d, Cell(d.xdim - 1, 0, 0))
  {
    MulAdd(d.ydim, 1, d.xdim);
  }

  /** On a grid one column wide and two rows deep, entry 8, the direction
      (1,1,-1), has offset 0: cell (0,0,1) reads its own index, which the
      pass has not written yet. */
  lemma SelfRead(d: Dims)
    requires d.xdim == 1 && d.ydim == 2 && d.zdim >= 2
    ensures InGrid(d, Cell(0, 0, 1)) && MinK(Cell(0, 0, 1)) <= 8 && Direction(8) == Cell(1, 1, -1)
    ensures Offset(d, 8) == 0
  {
  }
}
