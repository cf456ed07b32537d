/** Properties of the distance field as the source computes it: what seeding
    leaves in each cell, which cells a pass touches and when, where owners
    come from, and two behaviours of the sweep that its callers may not
    expect. */
module FieldProperties {
  import opened Grid
  import opened Stencil
  import opened FieldSpec

  // ---------------------------------------------------------------- seeding

  /** Seed q, among the first n, rounds to the cell with index i. */
  predicate SeedsCell(d: Dims, seeds: seq<Cell>, n: nat, q: int, i: int) {
    0 <= q < n <= |seeds| && InGrid(d, seeds[q]) && Index(d, seeds[q]) == i
  }

  /** p is the first of the seeds rounding to cell i that is nearest to it. */
  ghost predicate FirstNearest(d: Dims, dist: DistanceFn, seeds: seq<Cell>, n: nat, i: nat, p: int) {
    SeedsCell(d, seeds, n, p, i)
    && (forall q :: SeedsCell(d, seeds, n, q, i) ==> dist(p, i) <= dist(q, i))
    && (forall q :: q < p && SeedsCell(d, seeds, n, q, i) ==> dist(p, i) < dist(q, i))
  }

  /** One seed at cell i: it takes the cell when it rounds there and the cell
      is empty or strictly farther; every other cell is left alone. */
  lemma SeedStepAt(d: Dims, dist: DistanceFn, f: Field, p: int, c: Cell, i: nat)
    requires Shaped(f, d) && i < Size(d)
    ensures var g := SeedStep(d, dist, f, p, c);
      if InGrid(d, c) && Index(d, c) == i && (f.pindices[i] == -1 || dist(p, i) < f.distances[i])
      then g.pindices[i] == p && g.distances[i] == dist(p, i)
      else g.pindices[i] == f.pindices[i] && g.distances[i] == f.distances[i]
  {
  }

  /** After seeding, a cell is unowned exactly when no seed rounds to it, and
      an owned cell belongs to the first nearest of the seeds that round to
      it and holds that seed's distance: equal distances keep the earlier seed. */
  lemma {:induction false} SeededCell(d: Dims, dist: DistanceFn, seeds: seq<Cell>, n: nat, i: nat)
    requires n <= |seeds| && i < Size(d)
    ensures var f := Seeded(d, dist, seeds, n);
      && (f.pindices[i] == -1 <==> forall q :: !SeedsCell(d, seeds, n, q, i))
      && (f.pindices[i] != -1 ==>
            FirstNearest(d, dist, seeds, n, i, f.pindices[i]) && f.distances[i] == dist(f.pindices[i], i))
  {
    if n > 0 {
      SeededCell(d, dist, seeds, n - 1, i);
      var f' := Seeded(d, dist, seeds, n - 1);
      var s := seeds[n - 1];
      var f := SeedStep(d, dist, f', n - 1, s);
      assert f == Seeded(d, dist, seeds, n);
      SeedStepAt(d, dist, f', n - 1, s, i);
      forall q | q != n - 1
        ensures SeedsCell(d, seeds, n, q, i) <==> SeedsCell(d, seeds, n - 1, q, i)
      {
      }
      if InGrid(d, s) && Index(d, s) == i {
        assert SeedsCell(d, seeds, n, n - 1, i);
        if f'.pindices[i] == -1 {
          assert f.pindices[i] == n - 1;
          assert forall q :: SeedsCell(d, seeds, n, q, i) ==> q == n - 1;
        } else {
          var p := f'.pindices[i];
          assert FirstNearest(d, dist, seeds, n - 1, i, p);
          if dist(n - 1, i) < f'.distances[i] {
            assert f.pindices[i] == n - 1;
            assert FirstNearest(d, dist, seeds, n, i, n - 1);
          } else {
            assert f.pindices[i] == p;
            assert FirstNearest(d, dist, seeds, n, i, p);
          }
        }
      } else {
        assert !SeedsCell(d, seeds, n, n - 1, i);
        if f'.pindices[i] != -1 {
          assert FirstNearest(d, dist, seeds, n, i, f'.pindices[i]);
        }
      }
    }
  }

  /** A seed that rounds outside the grid never owns a cell. */
  lemma OutsideSeedOwnsNothing(d: Dims, dist: DistanceFn, seeds: seq<Cell>, q: nat, i: nat)
    requires q < |seeds| && !InGrid(d, seeds[q]) && i < Size(d)
    ensures Seeded(d, dist, seeds, |seeds|).pindices[i] != q
  {
    SeededCell(d, dist, seeds, |seeds|, i);
  }

  /** Seeding writes only seed indices: every owner is -1 or in [0, n). */
  lemma SeededOwnerRange(d: Dims, dist: DistanceFn, seeds: seq<Cell>, n: nat, i: nat)
    requires n <= |seeds| && i < Size(d)
    ensures -1 <= Seeded(d, dist, seeds, n).pindices[i] < n
  {
    SeededCell(d, dist, seeds, n, i);
  }

  /** Seeding evaluates the distance only at seed indices below n. */
  lemma {:induction false} SeededUsesSeedDistancesOnly(d: Dims, dist1: DistanceFn, dist2: DistanceFn, seeds: seq<Cell>, n: nat)
    requires n <= |seeds|
    requires forall p, i :: 0 <= p < n ==> dist1(p, i) == dist2(p, i)
    ensures Seeded(d, dist1, seeds, n) == Seeded(d, dist2, seeds, n)
  {
    if n > 0 {
      SeededUsesSeedDistancesOnly(d, dist1, dist2, seeds, n - 1);
    }
  }

  // ---------------------------------------------------------------- loops

  /** (z1, y1, x1) is not after (z, y, x) in the loops' order. */
  predicate NotAfter(z1: nat, y1: nat, x1: nat, z: nat, y: nat, x: nat) {
    z1 < z || (z1 == z && y1 < y) || (z1 == z && y1 == y && x1 <= x)
  }

  /** Two loop states of one pass, the first not after the second. */
  predicate Since(d: Dims, z1: nat, y1: nat, x1: nat, z: nat, y: nat, x: nat) {
    LoopPoint(d, z1, y1, x1) && LoopPoint(d, z, y, x) && NotAfter(z1, y1, x1, z, y, x)
  }

  /** Every application of step keeps property P of the vectors. */
  ghost predicate Keeps(d: Dims, step: Step, P: Field -> bool) {
    Steps(d, step)
    && forall f, c :: Shaped(f, d) && InGrid(d, c) && P(f) ==> P(step(f, c))
  }

  /** A property that every step keeps holds from any point of the loops on. */
  lemma {:induction false} LoopsKeep(d: Dims, step: Step, P: Field -> bool, f0: Field,
                                     z1: nat, y1: nat, x1: nat, z: nat, y: nat, x: nat)
    requires Keeps(d, step, P) && Shaped(f0, d) && Since(d, z1, y1, x1, z, y, x)
    requires P(Loops(d, step, f0, z1, y1, x1))
    ensures P(Loops(d, step, f0, z, y, x))
    decreases z, y, x
  {
    if z == z1 && y == y1 && x == x1 {
    } else if x > 0 {
      LoopsKeep(d, step, P, f0, z1, y1, x1, z, y, x - 1);
    } else if y > 0 {
      LoopsKeep(d, step, P, f0, z1, y1, x1, z, y - 1, d.xdim);
    } else {
      LoopsKeep(d, step, P, f0, z1, y1, x1, z - 1, d.ydim, 0);
    }
  }

  /** At cell c, step writes only the index the pass visits there. */
  ghost predicate WritesOnly(d: Dims, step: Step, pass: nat) {
    Steps(d, step)
    && forall f, c, j :: Shaped(f, d) && InGrid(d, c) && 0 <= j < Size(d) && j != ScanCell(d, pass, c) ==>
         step(f, c).distances[j] == f.distances[j] && step(f, c).pindices[j] == f.pindices[j]
  }

  /** When the loops reach (z, y, x), every index whose scan position is at
      or beyond Linear(x, y, z) still holds its value from the start. */
  lemma {:induction false} LoopsUnvisited(d: Dims, step: Step, pass: nat, f0: Field, z: nat, y: nat, x: nat, j: nat)
    requires WritesOnly(d, step, pass) && Shaped(f0, d) && LoopPoint(d, z, y, x)
    requires j < Size(d) && ScanIndex(d, pass, j) >= Linear(d, x, y, z)
    ensures Loops(d, step, f0, z, y, x).distances[j] == f0.distances[j]
    ensures Loops(d, step, f0, z, y, x).pindices[j] == f0.pindices[j]
    decreases z, y, x
  {
    if x > 0 {
      CellBehind(d, pass, z, y, x, j);
      LoopsUnvisited(d, step, pass, f0, z, y, x - 1, j);
    } else if y > 0 {
      RowEnd(d, y, z);
      LoopsUnvisited(d, step, pass, f0, z, y - 1, d.xdim, j);
    } else if z > 0 {
      PlaneEnd(d, z);
      LoopsUnvisited(d, step, pass, f0, z - 1, d.ydim, 0, j);
    }
  }

  /** The cell the x loop visits before reaching (z, y, x) lies at scan
      position Linear(x - 1, y, z), hence is not an index whose position is
      at or beyond Linear(x, y, z). */
  lemma CellBehind(d: Dims, pass: nat, z: nat, y: nat, x: nat, j: nat)
    requires LoopPoint(d, z, y, x) && x > 0
    requires j < Size(d) && ScanIndex(d, pass, j) >= Linear(d, x, y, z)
    ensures InGrid(d, Cell(x - 1, y, z)) && ScanCell(d, pass, Cell(x - 1, y, z)) != j
    ensures ScanIndex(d, pass, j) >= Linear(d, x - 1, y, z)
  {
  }

  /** The end of row y - 1 is the start of row y. */
  lemma RowEnd(d: Dims, y: nat, z: nat)
    requires y > 0
    ensures Linear(d, d.xdim, y - 1, z) == Linear(d, 0, y, z)
  {
    var nx: int := d.xdim;
    LinearAdd(d, d.xdim, y - 1, z, -nx, 1, 0);
  }

  /** The end of plane z - 1 is the start of plane z. */
  lemma PlaneEnd(d: Dims, z: nat)
    requires z > 0
    ensures Linear(d, 0, d.ydim, z - 1) == Linear(d, 0, 0, z)
  {
    var ny: int := d.ydim;
    LinearAdd(d, 0, d.ydim, z - 1, 0, -ny, 1);
  }

  /** Two bodies that agree on every state satisfying a property the first
      keeps give the same loops from a state satisfying it. */
  lemma {:induction false} LoopsAgree(d: Dims, step1: Step, step2: Step, P: Field -> bool, f0: Field, z: nat, y: nat, x: nat)
    requires Keeps(d, step1, P) && Steps(d, step2)
    requires forall f, c :: Shaped(f, d) && InGrid(d, c) && P(f) ==> step1(f, c) == step2(f, c)
    requires Shaped(f0, d) && LoopPoint(d, z, y, x) && P(f0)
    ensures Loops(d, step1, f0, z, y, x) == Loops(d, step2, f0, z, y, x)
    ensures P(Loops(d, step1, f0, z, y, x))
    decreases z, y, x
  {
    if x > 0 {
      LoopsAgree(d, step1, step2, P, f0, z, y, x - 1);
    } else if y > 0 {
      LoopsAgree(d, step1, step2, P, f0, z, y - 1, d.xdim);
    } else if z > 0 {
      LoopsAgree(d, step1, step2, P, f0, z - 1, d.ydim, 0);
    }
  }

  // ---------------------------------------------------------------- consistency

  lemma {:induction false} RelaxKeepsConsistent(d: Dims, dist: DistanceFn, t: Table, f: Field, pass: nat, index: nat, k: nat, cur: Choice)
    requires Shaped(f, d) && k <= MaxK && |t.diag| == MaxK && ReadsInside(d, t, pass, index, k)
    requires cur.pindex == -1 || cur.dist == dist(cur.pindex, index)
    ensures var r := Relax(d, dist, t, f, pass, index, k, cur);
      r.pindex == -1 || r.dist == dist(r.pindex, index)
    decreases MaxK - k
  {
    if k < MaxK {
      var ni := Neighbour(t, pass, index, k);
      var newD := f.distances[ni] + t.diag[k];
      var next := if cur.pindex == -1 || newD < cur.dist
                  then Choice(dist(f.pindices[ni], index), f.pindices[ni])
                  else cur;
      RelaxKeepsConsistent(d, dist, t, f, pass, index, k + 1, next);
    }
  }

  /** Every owned cell holds its owner's exact distance, after seeding and
      after each sweep step: the stored value is always recomputed by
      distance(), never the propagated bound. */
  lemma {:induction false} SeededConsistent(d: Dims, dist: DistanceFn, seeds: seq<Cell>, n: nat)
    requires n <= |seeds|
    ensures Consistent(Seeded(d, dist, seeds, n), dist)
  {
    if n > 0 {
      SeededConsistent(d, dist, seeds, n - 1);
    }
  }

  lemma PassBeforeConsistent(d: Dims, dist: DistanceFn, t: Table, f0: Field, pass: nat, z: nat, y: nat, x: nat)
    requires SweepSafe(d) && IsTable(d, t) && Shaped(f0, d) && LoopPoint(d, z, y, x) && Consistent(f0, dist)
    ensures Consistent(PassBefore(d, dist, t, f0, pass, z, y, x), dist)
  {
    var P := (f: Field) => Consistent(f, dist);
    var step := Visitor(d, dist, t, pass);
    forall f, c | Shaped(f, d) && InGrid(d, c) && P(f) ensures P(step(f, c)) {
      VisitCellConsistent(d, dist, t, f, pass, c);
    }
    LoopsKeep(d, step, P, f0, 0, 0, 0, z, y, x);
  }

  /** The invariant of the source's data model, for the constructor's result:
      an owned cell's distance is exactly distance(owner, cell). */
  lemma BuildConsistent(d: Dims, dist: DistanceFn, seeds: seq<Cell>)
    requires SweepSafe(d)
    ensures Consistent(Build(d, dist, seeds), dist)
  {
    var t := StencilTable(d);
    var s := Seeded(d, dist, seeds, |seeds|);
    SeededConsistent(d, dist, seeds, |seeds|);
    PassBeforeConsistent(d, dist, t, s, 0, d.zdim, 0, 0);
    PassBeforeConsistent(d, dist, t, Pass(d, dist, t, s, 0), 1, d.zdim, 0, 0);
  }

  // ---------------------------------------------------------------- owners

  // ---------------------------------------------------------------- one visit

  /** A visit writes only the cell it stands at. */
  lemma VisitCellFrame(d: Dims, dist: DistanceFn, t: Table, f: Field, pass: nat, c: Cell, j: nat)
    requires SweepSafe(d) && IsTable(d, t) && InGrid(d, c) && Shaped(f, d)
    requires j < Size(d) && j != ScanCell(d, pass, c)
    ensures VisitCell(d, dist, t, f, pass, c).distances[j] == f.distances[j]
    ensures VisitCell(d, dist, t, f, pass, c).pindices[j] == f.pindices[j]
  {
  }

  /** The cell a visit writes takes an owner already present in the vectors,
      and keeps the exact-distance invariant. */
  lemma VisitCellWritten(d: Dims, dist: DistanceFn, t: Table, f: Field, pass: nat, c: Cell)
    requires SweepSafe(d) && IsTable(d, t) && InGrid(d, c) && Shaped(f, d)
    ensures var g, index := VisitCell(d, dist, t, f, pass, c), ScanCell(d, pass, c);
      && g.pindices[index] in f.pindices
      && (Consistent(f, dist) ==> g.pindices[index] == -1 || g.distances[index] == dist(g.pindices[index], index))
  {
    var index := ScanCell(d, pass, c);
    ReadsAtCell(d, t, pass, c);
    var cur := Choice(f.distances[index], f.pindices[index]);
    if Consistent(f, dist) {
      RelaxKeepsConsistent(d, dist, t, f, pass, index, MinK(c), cur);
    }
  }

  lemma VisitCellConsistent(d: Dims, dist: DistanceFn, t: Table, f: Field, pass: nat, c: Cell)
    requires SweepSafe(d) && IsTable(d, t) && InGrid(d, c) && Shaped(f, d) && Consistent(f, dist)
    ensures Consistent(VisitCell(d, dist, t, f, pass, c), dist)
  {
    var g := VisitCell(d, dist, t, f, pass, c);
    VisitCellWritten(d, dist, t, f, pass, c);
    forall j | 0 <= j < Size(d) && j != ScanCell(d, pass, c)
      ensures g.pindices[j] == f.pindices[j] && g.distances[j] == f.distances[j]
    {
      VisitCellFrame(d, dist, t, f, pass, c, j);
    }
  }

  /** A visit keeps every owner inside any list that held all owners before. */
  lemma VisitKeepsOwnersIn(d: Dims, dist: DistanceFn, t: Table, f: Field, pass: nat, c: Cell, owners: seq<int>)
    requires SweepSafe(d) && IsTable(d, t) && InGrid(d, c) && Shaped(f, d)
    requires forall j :: 0 <= j < Size(d) ==> f.pindices[j] in owners
    ensures forall j :: 0 <= j < Size(d) ==> VisitCell(d, dist, t, f, pass, c).pindices[j] in owners
  {
    var g := VisitCell(d, dist, t, f, pass, c);
    VisitCellWritten(d, dist, t, f, pass, c);
    forall j | 0 <= j < Size(d) ensures g.pindices[j] in owners {
      if j != ScanCell(d, pass, c) {
        VisitCellFrame(d, dist, t, f, pass, c, j);
      } else {
        var m :| 0 <= m < |f.pindices| && f.pindices[m] == g.pindices[j];
      }
    }
  }

  /** Every owner of f is in owners. */
  predicate OwnersIn(f: Field, owners: seq<int>) {
    forall j :: 0 <= j < |f.pindices| ==> f.pindices[j] in owners
  }

  /** From any point of a pass on, the owners are copied from those present
      at that point. */
  lemma PassOwnersSince(d: Dims, dist: DistanceFn, t: Table, f0: Field, pass: nat,
                        z1: nat, y1: nat, x1: nat, z: nat, y: nat, x: nat)
    requires SweepSafe(d) && IsTable(d, t) && Shaped(f0, d) && Since(d, z1, y1, x1, z, y, x)
    ensures forall j :: 0 <= j < Size(d) ==>
      PassBefore(d, dist, t, f0, pass, z, y, x).pindices[j] in PassBefore(d, dist, t, f0, pass, z1, y1, x1).pindices
  {
    var owners := PassBefore(d, dist, t, f0, pass, z1, y1, x1).pindices;
    var P := (f: Field) => OwnersIn(f, owners);
    var step := Visitor(d, dist, t, pass);
    forall f, c | Shaped(f, d) && InGrid(d, c) && P(f) ensures P(step(f, c)) {
      VisitKeepsOwnersIn(d, dist, t, f, pass, c, owners);
    }
    forall j | 0 <= j < |owners| ensures owners[j] in owners {}
    LoopsKeep(d, step, P, f0, z1, y1, x1, z, y, x);
  }

  /** A pass only copies owners between cells: every owner it leaves was
      already an owner somewhere when it started. */
  lemma PassBeforeOwners(d: Dims, dist: DistanceFn, t: Table, f0: Field, pass: nat, z: nat, y: nat, x: nat)
    requires SweepSafe(d) && IsTable(d, t) && Shaped(f0, d) && LoopPoint(d, z, y, x)
    ensures forall j :: 0 <= j < Size(d) ==> PassBefore(d, dist, t, f0, pass, z, y, x).pindices[j] in f0.pindices
  {
    PassOwnersSince(d, dist, t, f0, pass, 0, 0, 0, z, y, x);
  }

  /** Every owner the constructor leaves is -1 or a seed that won its own
      cell during seeding; in particular it lies in [-1, points.size()). */
  lemma BuildOwners(d: Dims, dist: DistanceFn, seeds: seq<Cell>, j: nat)
    requires SweepSafe(d) && j < Size(d)
    ensures var p := Build(d, dist, seeds).pindices[j];
      p == -1 || exists i :: 0 <= i < Size(d) && FirstNearest(d, dist, seeds, |seeds|, i, p)
    ensures -1 <= Build(d, dist, seeds).pindices[j] < |seeds|
  {
    var t := StencilTable(d);
    var s := Seeded(d, dist, seeds, |seeds|);
    var s0 := Pass(d, dist, t, s, 0);
    PassBeforeOwners(d, dist, t, s0, 1, d.zdim, 0, 0);
    var p := Build(d, dist, seeds).pindices[j];
    var j0 :| 0 <= j0 < Size(d) && s0.pindices[j0] == p;
    PassBeforeOwners(d, dist, t, s, 0, d.zdim, 0, 0);
    var i :| 0 <= i < Size(d) && s.pindices[i] == p;
    SeededCell(d, dist, seeds, |seeds|, i);
  }

  // ---------------------------------------------------------------- order

  /** A pass visits the cells in scan order and each visit writes only its
      own cell: when the loops reach (z, y, x), every cell whose scan
      position is at or beyond Linear(x, y, z) still holds its value from
      the start of the pass. */
  lemma PassBeforeUnvisited(d: Dims, dist: DistanceFn, t: Table, f0: Field, pass: nat, z: nat, y: nat, x: nat, j: nat)
    requires SweepSafe(d) && IsTable(d, t) && Shaped(f0, d) && LoopPoint(d, z, y, x)
    requires j < Size(d) && ScanIndex(d, pass, j) >= Linear(d, x, y, z)
    ensures PassBefore(d, dist, t, f0, pass, z, y, x).distances[j] == f0.distances[j]
    ensures PassBefore(d, dist, t, f0, pass, z, y, x).pindices[j] == f0.pindices[j]
  {
    var step := Visitor(d, dist, t, pass);
    forall f, c, i | Shaped(f, d) && InGrid(d, c) && 0 <= i < Size(d) && i != ScanCell(d, pass, c)
      ensures step(f, c).distances[i] == f.distances[i] && step(f, c).pindices[i] == f.pindices[i]
    {
      VisitCellFrame(d, dist, t, f, pass, c, i);
    }
    LoopsUnvisited(d, step, pass, f0, z, y, x, j);
  }

  /** Every index is the scan index of exactly one grid cell, in each pass. */
  lemma ScanVisitsEachIndexOnce(d: Dims, pass: nat, j: nat)
    requires j < Size(d)
    ensures exists c :: InGrid(d, c) && ScanCell(d, pass, c) == j
    ensures forall c, c' :: InGrid(d, c) && InGrid(d, c') && ScanCell(d, pass, c) == j && ScanCell(d, pass, c') == j ==> c == c'
  {
    var t := ScanIndex(d, pass, j);
    assert ScanCell(d, pass, CellOf(d, t)) == j;
    forall c, c' | InGrid(d, c) && InGrid(d, c') && ScanCell(d, pass, c) == j && ScanCell(d, pass, c') == j
      ensures c == c'
    {
      IndexRoundTrip(d, c);
      IndexRoundTrip(d, c');
    }
  }

  // ---------------------------------------------------------------- radii

  /** Owners the pass can evaluate the distance at are those already present. */
  lemma {:induction false} RelaxUsesPresentOwners(d: Dims, dist1: DistanceFn, dist2: DistanceFn, t: Table, f: Field, pass: nat, index: nat, k: nat, cur: Choice)
    requires Shaped(f, d) && k <= MaxK && |t.diag| == MaxK && ReadsInside(d, t, pass, index, k)
    requires forall p, i :: p in f.pindices ==> dist1(p, i) == dist2(p, i)
    ensures Relax(d, dist1, t, f, pass, index, k, cur) == Relax(d, dist2, t, f, pass, index, k, cur)
    decreases MaxK - k
  {
    if k < MaxK {
      var ni := Neighbour(t, pass, index, k);
      assert f.pindices[ni] in f.pindices;
      var newD := f.distances[ni] + t.diag[k];
      var next := if cur.pindex == -1 || newD < cur.dist
                  then Choice(dist1(f.pindices[ni], index), f.pindices[ni])
                  else cur;
      RelaxUsesPresentOwners(d, dist1, dist2, t, f, pass, index, k + 1, next);
    }
  }

  /** A visit evaluates the distance only at owners present before it, and
      leaves only such owners. */
  lemma VisitUsesPresentOwners(d: Dims, dist1: DistanceFn, dist2: DistanceFn, t: Table, f: Field, pass: nat, c: Cell)
    requires SweepSafe(d) && IsTable(d, t) && InGrid(d, c) && Shaped(f, d)
    requires forall p, i :: p in f.pindices ==> dist1(p, i) == dist2(p, i)
    ensures VisitCell(d, dist1, t, f, pass, c) == VisitCell(d, dist2, t, f, pass, c)
    ensures forall p, i :: p in VisitCell(d, dist1, t, f, pass, c).pindices ==> dist1(p, i) == dist2(p, i)
  {
    var index := ScanCell(d, pass, c);
    ReadsAtCell(d, t, pass, c);
    RelaxUsesPresentOwners(d, dist1, dist2, t, f, pass, index, MinK(c), Choice(f.distances[index], f.pindices[index]));
    var g := VisitCell(d, dist1, t, f, pass, c);
    VisitKeepsOwnersIn(d, dist1, t, f, pass, c, f.pindices);
    forall p, i | p in g.pindices ensures dist1(p, i) == dist2(p, i) {
      var m :| 0 <= m < |g.pindices| && g.pindices[m] == p;
    }
  }

  /** A pass depends on the distance function only at the owners present
      when it starts. */
  lemma PassUsesPresentOwners(d: Dims, dist1: DistanceFn, dist2: DistanceFn, t: Table, f0: Field, pass: nat, z: nat, y: nat, x: nat)
    requires SweepSafe(d) && IsTable(d, t) && Shaped(f0, d) && LoopPoint(d, z, y, x)
    requires forall p, i :: p in f0.pindices ==> dist1(p, i) == dist2(p, i)
    ensures PassBefore(d, dist1, t, f0, pass, z, y, x) == PassBefore(d, dist2, t, f0, pass, z, y, x)
  {
    var P := (f: Field) => forall p, i :: p in f.pindices ==> dist1(p, i) == dist2(p, i);
    var step1, step2 := Visitor(d, dist1, t, pass), Visitor(d, dist2, t, pass);
    forall f, c | Shaped(f, d) && InGrid(d, c) && P(f) ensures P(step1(f, c)) && step1(f, c) == step2(f, c) {
      VisitUsesPresentOwners(d, dist1, dist2, t, f, pass, c);
    }
    LoopsAgree(d, step1, step2, P, f0, z, y, x);
  }

  /** One shared radius r is broadcast to every seed: for each seed index it
      gives the same distance as a per-seed array holding r n times. */
  lemma SharedRadiusBroadcast(len: DistanceFn, r: real, stray: real, n: nat, p: int, i: nat)
    requires 0 <= p < n
    ensures SphereDistance(len, [r], stray)(p, i) == SphereDistance(len, seq(n, _ => r), stray)(p, i)
  {
    var each: seq<real> := seq(n, _ => r);
    assert RadiusAt([r], stray, p) == r;
    assert each[p] == r;
    assert RadiusAt(each, stray, p) == r;
  }

  /** The finished field depends on the distance function only at the seeds
      and at the owners seeding leaves: -1 where a cell is left unowned. */
  lemma BuildUsesSeededOwners(d: Dims, dist1: DistanceFn, dist2: DistanceFn, seeds: seq<Cell>)
    requires SweepSafe(d)
    requires forall p, i :: 0 <= p < |seeds| ==> dist1(p, i) == dist2(p, i)
    requires forall p, i :: p in Seeded(d, dist1, seeds, |seeds|).pindices ==> dist1(p, i) == dist2(p, i)
    ensures Build(d, dist1, seeds) == Build(d, dist2, seeds)
  {
    var t := StencilTable(d);
    var n := |seeds|;
    SeededUsesSeedDistancesOnly(d, dist1, dist2, seeds, n);
    var s := Seeded(d, dist1, seeds, n);
    PassUsesPresentOwners(d, dist1, dist2, t, s, 0, d.zdim, 0, 0);
    var s0 := Pass(d, dist1, t, s, 0);
    PassBeforeOwners(d, dist1, t, s, 0, d.zdim, 0, 0);
    forall p, i | p in s0.pindices ensures dist1(p, i) == dist2(p, i) {
      var m :| 0 <= m < |s0.pindices| && s0.pindices[m] == p;
    }
    PassUsesPresentOwners(d, dist1, dist2, t, s0, 1, d.zdim, 0, 0);
  }

  /** Two distance functions that agree at -1 and at every seed index build
      the same field. */
  lemma BuildUsesSeedDistancesOnly(d: Dims, dist1: DistanceFn, dist2: DistanceFn, seeds: seq<Cell>)
    requires SweepSafe(d)
    requires forall p, i :: -1 <= p < |seeds| ==> dist1(p, i) == dist2(p, i)
    ensures Build(d, dist1, seeds) == Build(d, dist2, seeds)
  {
    var s := Seeded(d, dist1, seeds, |seeds|);
    forall p, i | p in s.pindices ensures dist1(p, i) == dist2(p, i) {
      var m :| 0 <= m < |s.pindices| && s.pindices[m] == p;
      SeededOwnerRange(d, dist1, seeds, |seeds|, m);
    }
    BuildUsesSeededOwners(d, dist1, dist2, seeds);
  }

  /** A fully seeded field depends on the distance function only at the seeds. */
  lemma FullySeededUsesSeedDistancesOnly(d: Dims, dist1: DistanceFn, dist2: DistanceFn, seeds: seq<Cell>)
    requires SweepSafe(d)
    requires forall p, i :: 0 <= p < |seeds| ==> dist1(p, i) == dist2(p, i)
    requires forall i :: 0 <= i < Size(d) ==> Seeded(d, dist1, seeds, |seeds|).pindices[i] != -1
    ensures Build(d, dist1, seeds) == Build(d, dist2, seeds)
  {
    var s := Seeded(d, dist1, seeds, |seeds|);
    forall p, i | p in s.pindices ensures dist1(p, i) == dist2(p, i) {
      var m :| 0 <= m < |s.pindices| && s.pindices[m] == p;
      SeededOwnerRange(d, dist1, seeds, |seeds|, m);
    }
    BuildUsesSeededOwners(d, dist1, dist2, seeds);
  }

  /** The shared radius and the per-seed array agree at every seed. At owner
      -1 the shared radius is read, while the per-seed array is read out of
      range unless it has exactly one entry: there the two agree exactly when
      that undefined read happens to yield r. */
  lemma SharedRadiusAgrees(len: DistanceFn, r: real, stray: real, n: nat)
    ensures forall p, i :: 0 <= p < n ==> SphereDistance(len, [r], stray)(p, i) == SphereDistance(len, seq(n, _ => r), stray)(p, i)
    ensures n == 1 ==> forall i :: SphereDistance(len, [r], stray)(-1, i) == SphereDistance(len, seq(n, _ => r), stray)(-1, i)
    ensures n != 1 ==> ((forall i :: SphereDistance(len, [r], stray)(-1, i) == SphereDistance(len, seq(n, _ => r), stray)(-1, i)) <==> stray == r)
  {
    var each: seq<real> := seq(n, _ => r);
    forall p, i | 0 <= p < n
      ensures SphereDistance(len, [r], stray)(p, i) == SphereDistance(len, each, stray)(p, i)
    {
      SharedRadiusBroadcast(len, r, stray, n, p, i);
    }
    assert RadiusAt([r], stray, -1) == r;
    if n == 1 {
      assert each[0] == r;
      assert RadiusAt(each, stray, -1) == r;
    } else {
      assert RadiusAt(each, stray, -1) == stray;
      if forall i :: SphereDistance(len, [r], stray)(-1, i) == SphereDistance(len, each, stray)(-1, i) {
        assert SphereDistance(len, [r], stray)(-1, 0) == SphereDistance(len, each, stray)(-1, 0);
      }
    }
  }

  /** Hence seeding is identical with a shared radius and with a per-seed
      array of equal radii. The two differ only at owner -1, where the shared
      radius is read and the per-seed array is read out of range: the whole
      field is the same when seeding leaves no cell unowned, when there is
      exactly one seed, or when that out-of-range read yields r. */
  lemma SharedRadiusSameField(d: Dims, len: DistanceFn, r: real, stray: real, seeds: seq<Cell>)
    requires SweepSafe(d)
    ensures var shared, each := SphereDistance(len, [r], stray), SphereDistance(len, seq(|seeds|, _ => r), stray);
      Seeded(d, shared, seeds, |seeds|) == Seeded(d, each, seeds, |seeds|)
      && ((forall i :: 0 <= i < Size(d) ==> Seeded(d, shared, seeds, |seeds|).pindices[i] != -1) || |seeds| == 1 || stray == r
          ==> Build(d, shared, seeds) == Build(d, each, seeds))
  {
    var shared, each := SphereDistance(len, [r], stray), SphereDistance(len, seq(|seeds|, _ => r), stray);
    SharedRadiusAgrees(len, r, stray, |seeds|);
    SeededUsesSeedDistancesOnly(d, shared, each, seeds, |seeds|);
    if forall i :: 0 <= i < Size(d) ==> Seeded(d, shared, seeds, |seeds|).pindices[i] != -1 {
      FullySeededUsesSeedDistancesOnly(d, shared, each, seeds);
    } else if |seeds| == 1 || stray == r {
      BuildUsesSeedDistancesOnly(d, shared, each, seeds);
    }
  }

  // ---------------------------------------------------------------- hazards

  /** A cell with min_k == max_k, the grid's first cell, is visited without
      any read: the visit stores back what the cell holds. */
  lemma VisitFirstCell(d: Dims, dist: DistanceFn, t: Table, f: Field, pass: nat)
    requires SweepSafe(d) && IsTable(d, t) && InGrid(d, Cell(0, 0, 0)) && Shaped(f, d)
    ensures VisitCell(d, dist, t, f, pass, Cell(0, 0, 0)) == f
  {
    var index := ScanCell(d, pass, Cell(0, 0, 0));
    assert f.distances[index := f.distances[index]] == f.distances;
    assert f.pindices[index := f.pindices[index]] == f.pindices;
  }

  /** The first two cells of the first row, on a grid with at least two columns. */
  lemma FirstRowCells(d: Dims)
    requires d.xdim >= 2 && d.ydim >= 1 && d.zdim >= 1
    ensures InGrid(d, Cell(0, 0, 0)) && Index(d, Cell(0, 0, 0)) == 0
    ensures InGrid(d, Cell(1, 0, 0)) && Index(d, Cell(1, 0, 0)) == 1
    ensures Size(d) >= 2 && LoopPoint(d, 0, 0, 2)
  {
    MulLeq(1, d.ydim, d.xdim);
    MulLeq(1, d.zdim, d.xdim * d.ydim);
  }

  /** The upward pass reaches cell (1,0,0) second: it has stored the first
      cell back and, at (1,0,0), looked once at cell 0 through entry 12. */
  lemma UpwardSecondVisit(d: Dims, dist: DistanceFn, t: Table, f: Field)
    requires SweepSafe(d) && IsTable(d, t) && d.xdim >= 2 && d.ydim >= 1 && d.zdim >= 1 && Shaped(f, d)
    ensures LoopPoint(d, 0, 0, 2)
    ensures var g := PassBefore(d, dist, t, f, 0, 0, 0, 2);
      && (forall j :: 2 <= j < Size(d) ==> g.pindices[j] == f.pindices[j] && g.distances[j] == f.distances[j])
      && g.pindices[0] == f.pindices[0]
      && (if f.pindices[1] == -1 || f.distances[0] + 1.0 < f.distances[1]
          then g.pindices[1] == f.pindices[0] && g.distances[1] == dist(f.pindices[0], 1)
          else g.pindices[1] == f.pindices[1] && g.distances[1] == f.distances[1])
  {
    FirstRowCells(d);
    assert PassBefore(d, dist, t, f, 0, 0, 0, 0) == f;
    VisitFirstCell(d, dist, t, f, 0);
    assert PassBefore(d, dist, t, f, 0, 0, 0, 1) == f;
    var c := Cell(1, 0, 0);
    var g := VisitCell(d, dist, t, f, 0, c);
    assert PassBefore(d, dist, t, f, 0, 0, 0, 2) == g;
    RowSecondCell(d);
    assert t.offsets[12] == Offset(d, 12) && t.diag[12] == Diag(12);
    assert ScanCell(d, 0, c) == 1;
    assert Neighbour(t, 0, 1, 12) == 0;
    ReadsAtCell(d, t, 0, c);
    var cur := Choice(f.distances[1], f.pindices[1]);
    var r := Relax(d, dist, t, f, 0, 1, 12, cur);
    assert r == if f.pindices[1] == -1 || f.distances[0] + 1.0 < f.distances[1]
                then Choice(dist(f.pindices[0], 1), f.pindices[0]) else cur;
    forall j | 0 <= j < Size(d) && j != 1
      ensures g.pindices[j] == f.pindices[j] && g.distances[j] == f.distances[j]
    {
      VisitCellFrame(d, dist, t, f, 0, c, j);
    }
  }

  /** The second cell of the first row tries only entry 12, of length 1. */
  lemma RowSecondCell(d: Dims)
    ensures MinK(Cell(1, 0, 0)) == 12 && Offset(d, 12) == -1 && Diag(12) == 1.0
  {
  }

  /** Seeding with a single seed in cell (1,0,0). */
  lemma SeededLone(d: Dims, dist: DistanceFn, i: nat)
    requires d.xdim >= 2 && d.ydim >= 1 && d.zdim >= 1 && i < Size(d)
    ensures var s := Seeded(d, dist, [Cell(1, 0, 0)], 1);
      if i == 1 then s.pindices[i] == 0 && s.distances[i] == dist(0, 1)
      else s.pindices[i] == -1 && s.distances[i] == 0.0
  {
    FirstRowCells(d);
    SeedStepAt(d, dist, Initial(d), 0, Cell(1, 0, 0), i);
  }

  /** Seeding with one seed in cell (0,0,0) and one in cell (1,0,0). */
  lemma SeededPair(d: Dims, dist: DistanceFn)
    requires d.xdim >= 2 && d.ydim >= 1 && d.zdim >= 1
    ensures Size(d) >= 2
    ensures var s := Seeded(d, dist, [Cell(0, 0, 0), Cell(1, 0, 0)], 2);
      s.pindices[0] == 0 && s.distances[0] == dist(0, 0)
      && s.pindices[1] == 1 && s.distances[1] == dist(1, 1)
  {
    FirstRowCells(d);
    var seeds := [Cell(0, 0, 0), Cell(1, 0, 0)];
    var s1 := Seeded(d, dist, seeds, 1);
    SeedStepAt(d, dist, Initial(d), 0, Cell(0, 0, 0), 0);
    SeedStepAt(d, dist, Initial(d), 0, Cell(0, 0, 0), 1);
    SeedStepAt(d, dist, s1, 1, Cell(1, 0, 0), 0);
    SeedStepAt(d, dist, s1, 1, Cell(1, 0, 0), 1);
  }

  /** An unowned cell keeps distance 0.0, so it looks close: when the only
      seed sits in cell (1,0,0) farther than one grid unit from it, the
      upward pass copies owner -1 from cell 0 into cell 1 (evaluating
      distance(-1, pos) on the way), and the seed is lost from the field.
      diag is in grid units while distances are in world units. A point that
      rounds into cell (1,0,0) is at most (sqrt(3)/2) * grid_spacing from it,
      so with a Euclidean distance minus a radius the hypothesis needs
      grid_spacing > 2/sqrt(3); moovoo itself passes grid_spacing 1. */
  lemma LoneSeedErased(d: Dims, dist: DistanceFn)
    requires SweepSafe(d) && d.xdim >= 2 && d.ydim >= 1 && d.zdim >= 1
    requires dist(0, 1) > 1.0
    ensures forall j :: 0 <= j < Size(d) ==> Build(d, dist, [Cell(1, 0, 0)]).pindices[j] == -1
  {
    var t := StencilTable(d);
    FirstRowCells(d);
    var s := Seeded(d, dist, [Cell(1, 0, 0)], 1);
    SeededLone(d, dist, 0);
    SeededLone(d, dist, 1);
    UpwardSecondVisit(d, dist, t, s);
    var a := PassBefore(d, dist, t, s, 0, 0, 0, 2);
    forall j | 0 <= j < Size(d) ensures a.pindices[j] == -1 {
      if j >= 2 {
        SeededLone(d, dist, j);
      }
    }
    PassOwnersSince(d, dist, t, s, 0, 0, 0, 2, d.zdim, 0, 0);
    var s0 := Pass(d, dist, t, s, 0);
    forall j | 0 <= j < Size(d) ensures s0.pindices[j] == -1 {
      var m :| 0 <= m < |a.pindices| && a.pindices[m] == s0.pindices[j];
    }
    PassBeforeOwners(d, dist, t, s0, 1, d.zdim, 0, 0);
    var b := Build(d, dist, [Cell(1, 0, 0)]);
    forall j | 0 <= j < Size(d) ensures b.pindices[j] == -1 {
      var m :| 0 <= m < |s0.pindices| && s0.pindices[m] == b.pindices[j];
    }
  }

  /** Adoption is decided by the bound distances_[n] + diag[k] but stores the
      exact distance of the new owner, which can be larger: with seeds in
      cells (0,0,0) and (1,0,0), the upward pass gives cell 1 to seed 0 and
      stores dist(0, 1), larger than the dist(1, 1) seeding left there.
      With a Euclidean distance the triangle inequality gives
      dist(0, 1) <= dist(0, 0) + grid_spacing, so the hypothesis needs
      grid_spacing > 1: it holds only because diag is in grid units. */
  lemma SweepCanRaiseDistance(d: Dims, dist: DistanceFn)
    requires SweepSafe(d) && d.xdim >= 2 && d.ydim >= 1 && d.zdim >= 1
    requires dist(0, 0) + 1.0 < dist(1, 1) < dist(0, 1)
    ensures LoopPoint(d, 0, 0, 2) && Size(d) >= 2
    ensures var s := Seeded(d, dist, [Cell(0, 0, 0), Cell(1, 0, 0)], 2);
      var a := PassBefore(d, dist, StencilTable(d), s, 0, 0, 0, 2);
      s.pindices[1] == 1 && s.distances[1] == dist(1, 1)
      && a.pindices[1] == 0 && a.distances[1] == dist(0, 1) > s.distances[1]
  {
    SeededPair(d, dist);
    UpwardSecondVisit(d, dist, StencilTable(d), Seeded(d, dist, [Cell(0, 0, 0), Cell(1, 0, 0)], 2));
  }
}
