/** The regular 3-D grid of gilgamesh::distance_field: its extents, the linear
    index ((z*ydim)+y)*xdim+x of a cell, and the order in which a sweep pass
    visits the cells. */
module Grid {

  /** The grid extents xdim, ydim, zdim handed to the distance field. */
  datatype Dims = Dims(xdim: nat, ydim: nat, zdim: nat)

  /** Integer coordinates of a cell; a rounded seed may lie outside the grid. */
  datatype Cell = Cell(x: int, y: int, z: int)

  /** Number of cells, the length of both output vectors. */
  function Size(d: Dims): nat {
    d.xdim * d.ydim * d.zdim
  }

  predicate InGrid(d: Dims, c: Cell) {
    0 <= c.x < d.xdim && 0 <= c.y < d.ydim && 0 <= c.z < d.zdim
  }

  /** The source's index formula ((z*ydim)+y)*xdim+x, for any integer triple:
      it is applied to cells and to neighbour directions alike. */
  function Linear(d: Dims, x: int, y: int, z: int): int {
    ((z * d.ydim) + y) * d.xdim + x
  }

  /** Linear index of a cell of the grid. */
  function Index(d: Dims, c: Cell): (i: nat)
    requires InGrid(d, c)
    ensures i < Size(d)
  {
    LinearBounds(d, c.x, c.y, c.z);
    Linear(d, c.x, c.y, c.z)
  }

  /** The cell whose linear index is i (the inverse of Index). */
  function CellOf(d: Dims, i: nat): (c: Cell)
    requires i < Size(d)
    ensures InGrid(d, c) && Index(d, c) == i
  {
    assert d.xdim > 0 && d.ydim > 0;
    var row := i / d.xdim;
    assert i < (d.zdim * d.ydim) * d.xdim;
    DivLess(i, d.xdim, d.zdim * d.ydim);
    DivLess(row, d.ydim, d.zdim);
    Cell(i % d.xdim, row % d.ydim, row / d.ydim)
  }

  /** In pass 0 the t-th visited cell has index t; in pass 1 it has size-1-t. */
  function ScanIndex(d: Dims, pass: nat, t: int): int {
    if pass == 0 then t else Size(d) - 1 - t
  }

  lemma LinearBounds(d: Dims, x: int, y: int, z: int)
    requires 0 <= x < d.xdim && 0 <= y < d.ydim && 0 <= z < d.zdim
    ensures 0 <= Linear(d, x, y, z) < Size(d)
  {
    var row := z * d.ydim + y;
    assert 0 <= row < (z + 1) * d.ydim;
    assert (z + 1) * d.ydim <= d.zdim * d.ydim by {
      MulLeq(z + 1, d.zdim, d.ydim);
    }
    assert row + 1 <= d.zdim * d.ydim;
    assert row * d.xdim + x < (row + 1) * d.xdim;
    MulLeq(row + 1, d.zdim * d.ydim, d.xdim);
    assert d.zdim * d.ydim * d.xdim == Size(d);
  }

  lemma MulLeq(a: int, b: int, c: nat)
    requires a <= b
    ensures a * c <= b * c
  {
  }

  /** Adding the linear offset of a direction moves the index by that direction. */
  lemma LinearAdd(d: Dims, x: int, y: int, z: int, dx: int, dy: int, dz: int)
    ensures Linear(d, x, y, z) + Linear(d, dx, dy, dz) == Linear(d, x + dx, y + dy, z + dz)
  {
    assert (z + dz) * d.ydim == z * d.ydim + dz * d.ydim;
    assert (z * d.ydim + dz * d.ydim + y + dy) * d.xdim
        == (z * d.ydim + y) * d.xdim + (dz * d.ydim + dy) * d.xdim;
  }

  /** The cell that pass 1 visits as (x,y,z) is the mirror image
      (xdim-1-x, ydim-1-y, zdim-1-z), whose index is size-1-index: the world
      position max - (x,y,z)*spacing used there is that of the cell written. */
  lemma {:induction false} MirrorIndex(d: Dims, c: Cell)
    requires InGrid(d, c)
    ensures InGrid(d, Cell(d.xdim - 1 - c.x, d.ydim - 1 - c.y, d.zdim - 1 - c.z))
    ensures Index(d, Cell(d.xdim - 1 - c.x, d.ydim - 1 - c.y, d.zdim - 1 - c.z))
         == Size(d) - 1 - Index(d, c)
  {
    LinearAdd(d, c.x, c.y, c.z, d.xdim - 1 - c.x - c.x, d.ydim - 1 - c.y - c.y, d.zdim - 1 - c.z - c.z);
    LinearAdd(d, c.x, c.y, c.z, d.xdim - 1 - c.x, d.ydim - 1 - c.y, d.zdim - 1 - c.z);
    var m := Linear(d, d.xdim - 1 - c.x, d.ydim - 1 - c.y, d.zdim - 1 - c.z);
    var l := Linear(d, c.x, c.y, c.z);
    calc {
      m + l;
      Linear(d, d.xdim - 1, d.ydim - 1, d.zdim - 1);
      { LinearAdd(d, 0, 0, d.zdim, -1, -1, -1); }
      Linear(d, 0, 0, d.zdim) - d.ydim * d.xdim - d.xdim - 1 + d.ydim * d.xdim + d.xdim;
      ((d.zdim * d.ydim) * d.xdim) - 1;
    }
  }

  /** Index and CellOf are inverse bijections between grid cells and [0, size). */
  lemma {:induction false} IndexRoundTrip(d: Dims, c: Cell)
    requires InGrid(d, c)
    ensures CellOf(d, Index(d, c)) == c
  {
    var row := c.z * d.ydim + c.y;
    DivModUnique(row * d.xdim + c.x, d.xdim, row, c.x);
    DivModUnique(row, d.ydim, c.z, c.y);
  }

  lemma DivLess(n: nat, m: nat, b: int)
    requires m > 0 && n < b * m
    ensures n / m < b
  {
    if n / m >= b {
      MulLeq(b, n / m, m);
    }
  }

  lemma DivModUnique(n: int, m: int, q: int, r: int)
    requires 0 <= r < m && n == q * m + r
    ensures n / m == q && n % m == r
  {
    var q', r' := n / m, n % m;
    assert n == q' * m + r';
    if q' < q {
      MulLeq(q' + 1, q, m);
    } else if q' > q {
      MulLeq(q + 1, q', m);
    }
  }
}
