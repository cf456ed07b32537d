/** gilgamesh::distance_field: the class that owns the two output vectors,
    its constructor (allocation, seeding loop and sweep) and its accessors,
    each proved against the functions of FieldSpec. */
module Gilgamesh {
  import opened Grid
  import opened Stencil
  import opened FieldSpec
  import opened FieldProperties

  class DistanceField {
    /** distances_: the distance to the owning point, per cell. */
    var distances: array<real>
    /** pindices_: the index of the owning point per cell, -1 for none. */
    var pindices: array<int>

    /** The two vectors as values. */
    ghost function Current(): Field
      reads this, distances, pindices
    {
      Field(distances[..], pindices[..])
    }

    /** distance_field(xdim, ydim, zdim, ..., points, radii): allocates the
        vectors, seeds one cell per point that rounds into the grid and sweeps.
        The points are given already rounded to cells and the distance lambda
        as dist. */
    constructor (d: Dims, seeds: seq<Cell>, dist: DistanceFn)
      requires SweepSafe(d)
      ensures fresh(distances) && fresh(pindices)
      ensures Current() == Build(d, dist, seeds)
    {
      var size := d.xdim * d.ydim * d.zdim;
      pindices := new int[size](_ => -1);
      distances := new real[size](_ => 0.0);
      new;
      assert Current() == Initial(d);
      Seed(d, seeds, dist);
      Sweep(d, dist);
      assert Current() == Swept(d, dist, Seeded(d, dist, seeds, |seeds|));
    }

    /** The seeding loop of the constructor: each seed that rounds into the
        grid claims its cell when the cell is empty or the seed is closer. */
    method Seed(d: Dims, seeds: seq<Cell>, dist: DistanceFn)
      requires Current() == Initial(d)
      modifies distances, pindices
      ensures Current() == Seeded(d, dist, seeds, |seeds|)
    {
      for pindex := 0 to |seeds|
        invariant Current() == Seeded(d, dist, seeds, pindex)
      {
        var c := seeds[pindex];
        if 0 <= c.x < d.xdim && 0 <= c.y < d.ydim && 0 <= c.z < d.zdim {
          LinearBounds(d, c.x, c.y, c.z);
          var index := ((c.z * d.ydim) + c.y) * d.xdim + c.x;
          var newD := dist(pindex, index);
          if pindices[index] == -1 || newD < distances[index] {
            pindices[index] := pindex;
            distances[index] := newD;
          }
        }
      }
    }

    /** distances(): the object's own vector, not a copy. */
    method Distances() returns (v: array<real>)
      ensures v == distances && v[..] == Current().distances
    {
      v := distances;
    }

    /** pindices(): the object's own vector, not a copy. */
    method PIndices() returns (v: array<int>)
      ensures v == pindices && v[..] == Current().pindices
    {
      v := pindices;
    }

    /** sweep: builds the stencil tables, then runs pass 0 upwards and pass 1
        downwards over the vectors. */
    method Sweep(d: Dims, dist: DistanceFn)
      requires SweepSafe(d) && distances.Length == Size(d) && pindices.Length == Size(d)
      modifies distances, pindices
      ensures Current() == Swept(d, dist, old(Current()))
    {
      var offsets, diag, maxK := BuildStencil(d);
      ghost var t := Table(offsets[..], diag[..]);
      TableUnique(d, t);
      ghost var f0 := Current();
      for pass := 0 to 2
        invariant offsets[..] == t.offsets && diag[..] == t.diag
        invariant Current() == if pass == 0 then f0
                               else if pass == 1 then Pass(d, dist, t, f0, 0)
                               else Pass(d, dist, t, Pass(d, dist, t, f0, 0), 1)
      {
        VisitorVisits(d, dist, t, pass);
        SweepPass(d, dist, t, offsets, diag, maxK, pass, Visitor(d, dist, t, pass));
      }
    }

    /** One pass of sweep: index starts at 0 going up and at size-1 going
        down, and steps by mul = +1 or -1 once per cell. */
    method SweepPass(d: Dims, dist: DistanceFn, ghost t: Table, offsets: array<int>, diag: array<real>, maxK: int, pass: nat,
                     ghost step: Step)
      requires SweepSafe(d) && IsTable(d, t) && offsets[..] == t.offsets && diag[..] == t.diag && maxK == MaxK
      requires distances.Length == Size(d) && pindices.Length == Size(d) && offsets != pindices && diag != distances
      modifies distances, pindices
      requires Visits(d, dist, t, pass, step)
      ensures Current() == Loops(d, step, old(Current()), d.zdim, 0, 0)
    {
      var size := d.xdim * d.ydim * d.zdim;
      var index := if pass == 0 then 0 else size - 1;
      ghost var f0 := Current();
      for z := 0 to d.zdim
        invariant index == ScanIndex(d, pass, Linear(d, 0, 0, z))
        invariant Current() == Loops(d, step, f0, z, 0, 0)
      {
        for y := 0 to d.ydim
          invariant index == ScanIndex(d, pass, Linear(d, 0, y, z))
          invariant Current() == Loops(d, step, f0, z, y, 0)
        {
          index := SweepRow(d, dist, t, offsets, diag, maxK, pass, z, y, index, step, f0);
        }
        PlaneEnd(d, z + 1);
      }
    }

    /** The x loop of one pass, over row y of plane z, for a step that does
        what VisitCell does. */
    method SweepRow(d: Dims, dist: DistanceFn, ghost t: Table, offsets: array<int>, diag: array<real>, maxK: int,
                    pass: nat, z: nat, y: nat, index0: int, ghost step: Step, ghost f0: Field) returns (index: int)
      requires SweepSafe(d) && IsTable(d, t) && offsets[..] == t.offsets && diag[..] == t.diag && maxK == MaxK
      requires distances.Length == Size(d) && pindices.Length == Size(d) && offsets != pindices && diag != distances
      requires z < d.zdim && y < d.ydim && Shaped(f0, d) && Visits(d, dist, t, pass, step)
      requires index0 == ScanIndex(d, pass, Linear(d, 0, y, z))
      requires Current() == Loops(d, step, f0, z, y, 0)
      modifies distances, pindices
      ensures index == ScanIndex(d, pass, Linear(d, 0, y + 1, z))
      ensures Current() == Loops(d, step, f0, z, y + 1, 0)
    {
      index := index0;
      var mul := if pass == 0 then 1 else -1;
      for x := 0 to d.xdim
        invariant index == ScanIndex(d, pass, Linear(d, x, y, z))
        invariant Current() == Loops(d, step, f0, z, y, x)
      {
        ScanStep(d, pass, x, y, z);
        VisitAt(d, dist, t, offsets, diag, maxK, pass, Cell(x, y, z), index, step);
        index := index + mul;
      }
      RowEnd(d, y + 1, z);
    }

    /** The body of the x loop at cell c: choose, then store the chosen
        distance and owner at the cell's index. */
    method VisitAt(d: Dims, dist: DistanceFn, ghost t: Table, offsets: array<int>, diag: array<real>, maxK: int,
                   pass: nat, c: Cell, index: int, ghost step: Step)
      requires SweepSafe(d) && IsTable(d, t) && offsets[..] == t.offsets && diag[..] == t.diag && maxK == MaxK
      requires distances.Length == Size(d) && pindices.Length == Size(d)
      requires InGrid(d, c) && index == ScanCell(d, pass, c) && Visits(d, dist, t, pass, step)
      modifies distances, pindices
      ensures Current() == step(old(Current()), c)
    {
      ghost var f := Current();
      var r := ChooseAt(d, dist, t, offsets, diag, maxK, pass, c, index, step);
      distances[index] := r.dist;
      pindices[index] := r.pindex;
      assert Current() == Field(f.distances[index := r.dist], f.pindices[index := r.pindex]);
    }

    /** The reads of the x loop body at cell c: the cell's own entry, min_k
        and the k loop. The result is what the visit stores. */
    method ChooseAt(d: Dims, dist: DistanceFn, ghost t: Table, offsets: array<int>, diag: array<real>, maxK: int,
                    pass: nat, c: Cell, index: int, ghost step: Step) returns (r: Choice)
      requires SweepSafe(d) && IsTable(d, t) && offsets[..] == t.offsets && diag[..] == t.diag && maxK == MaxK
      requires distances.Length == Size(d) && pindices.Length == Size(d)
      requires InGrid(d, c) && index == ScanCell(d, pass, c) && Visits(d, dist, t, pass, step)
      ensures step(Current(), c) == Field(Current().distances[index := r.dist], Current().pindices[index := r.pindex])
    {
      ReadsAtCell(d, t, pass, c);
      var dist0 := distances[index];
      var pindex := pindices[index];
      var minK := (if c.z == 0 then 9 else 0) + (if c.y == 0 then 3 else 0) + (if c.x == 0 then 1 else 0);
      r := RelaxCell(d, dist, t, offsets, diag, maxK, pass, index, minK, Choice(dist0, pindex));
      VisitStores(d, dist, t, Current(), pass, c, index, r, step);
    }

    /** The k loop at one cell: tries entries min_k .. max_k-1 and keeps the
        owner and exact distance the adoption test selects. */
    method RelaxCell(d: Dims, dist: DistanceFn, ghost t: Table, offsets: array<int>, diag: array<real>, maxK: int,
                     pass: nat, index: nat, minK: nat, cur0: Choice) returns (cur: Choice)
      requires |t.offsets| == MaxK && |t.diag| == MaxK && offsets[..] == t.offsets && diag[..] == t.diag && maxK == MaxK
      requires distances.Length == Size(d) && pindices.Length == Size(d)
      requires minK <= MaxK && ReadsInside(d, t, pass, index, minK)
      ensures cur == Relax(d, dist, t, Current(), pass, index, minK, cur0)
    {
      var mul := if pass == 0 then 1 else -1;
      cur := cur0;
      var k := minK;
      while k != maxK
        invariant minK <= k <= MaxK
        invariant Relax(d, dist, t, Current(), pass, index, k, cur) == Relax(d, dist, t, Current(), pass, index, minK, cur0)
        decreases MaxK - k
      {
        var newIndex := index + offsets[k] * mul;
        var newD := distances[newIndex] + diag[k];
        if cur.pindex == -1 || newD < cur.dist {
          var p := pindices[newIndex];
          cur := Choice(dist(p, index), p);
        }
        k := k + 1;
      }
    }
  }

  /** The store at the end of the x loop body is the step at the cell. */
  lemma VisitStores(d: Dims, dist: DistanceFn, t: Table, f: Field, pass: nat, c: Cell, index: nat, r: Choice, step: Step)
    requires SweepSafe(d) && IsTable(d, t) && InGrid(d, c) && Shaped(f, d) && index == ScanCell(d, pass, c)
    requires ReadsInside(d, t, pass, index, MinK(c)) && Visits(d, dist, t, pass, step)
    requires r == Relax(d, dist, t, f, pass, index, MinK(c), Choice(f.distances[index], f.pindices[index]))
    ensures step(f, c) == Field(f.distances[index := r.dist], f.pindices[index := r.pindex])
  {
    assert step(f, c) == VisitCell(d, dist, t, f, pass, c);
  }

  /** Moving one cell along a row moves the pass's index by mul. */
  lemma ScanStep(d: Dims, pass: nat, x: nat, y: nat, z: nat)
    requires x < d.xdim && y < d.ydim && z < d.zdim
    ensures ScanCell(d, pass, Cell(x, y, z)) == ScanIndex(d, pass, Linear(d, x, y, z))
    ensures ScanIndex(d, pass, Linear(d, x + 1, y, z)) == ScanIndex(d, pass, Linear(d, x, y, z)) + Mul(pass)
  {
  }
}
