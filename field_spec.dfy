/** What gilgamesh::distance_field computes, as functions on the two output
    vectors: the seeding loop of the constructor and the two passes of sweep,
    in the source's visiting order and with its exact adoption test. */
module FieldSpec {
  import opened Grid
  import opened Stencil

  /** The constructor's distance(pindex, pos), with pos the world position of
      the cell whose linear index is given. It is total on purpose: the sweep
      also asks it about owner -1, which the source does not guard against. */
  type DistanceFn = (int, nat) -> real

  /** The two output vectors: distances_ and pindices_ (-1 = no owner). */
  datatype Field = Field(distances: seq<real>, pindices: seq<int>)

  /** The locals dist and pindex of the sweep's inner loop. */
  datatype Choice = Choice(dist: real, pindex: int)

  predicate Shaped(f: Field, d: Dims) {
    |f.distances| == Size(d) && |f.pindices| == Size(d)
  }

  /** Every owned cell holds the exact distance of its owner. */
  predicate Consistent(f: Field, dist: DistanceFn) {
    |f.distances| == |f.pindices|
    && forall i :: 0 <= i < |f.pindices| ==> f.pindices[i] == -1 || f.distances[i] == dist(f.pindices[i], i)
  }

  /** The vectors as the constructor allocates them: pindices_(size, -1) and
      distances_(size), value-initialised to 0.0. */
  function Initial(d: Dims): (f: Field)
    ensures Shaped(f, d)
    ensures forall i :: 0 <= i < Size(d) ==> f.pindices[i] == -1 && f.distances[i] == 0.0
  {
    Field(seq(Size(d), _ => 0.0), seq(Size(d), _ => -1))
  }

  // ---------------------------------------------------------------- seeding

  /** One iteration of the seeding loop for seed p, rounded to cell c: a cell
      outside the grid is skipped; an empty cell takes the seed; an occupied
      one only when the seed is strictly closer. */
  function SeedStep(d: Dims, dist: DistanceFn, f: Field, p: int, c: Cell): (g: Field)
    requires Shaped(f, d)
    ensures Shaped(g, d)
  {
    if InGrid(d, c) then
      var i := Index(d, c);
      var newD := dist(p, i);
      if f.pindices[i] == -1 || newD < f.distances[i] then
        Field(f.distances[i := newD], f.pindices[i := p])
      else
        f
    else
      f
  }

  /** The vectors after the seeding loop has handled seeds 0 .. n-1. */
  function Seeded(d: Dims, dist: DistanceFn, seeds: seq<Cell>, n: nat): (f: Field)
    requires n <= |seeds|
    ensures Shaped(f, d)
    decreases n
  {
    if n == 0 then Initial(d)
    else SeedStep(d, dist, Seeded(d, dist, seeds, n - 1), n - 1, seeds[n - 1])
  }

  // ---------------------------------------------------------------- sweep

  /** mul: +1 in pass 0, -1 in pass 1, where the offsets are negated. */
  function Mul(pass: nat): int {
    if pass == 0 then 1 else -1
  }

  /** new_index = index + offsets[k] * mul, written with mul = +1 or -1
      resolved. */
  function Neighbour(t: Table, pass: nat, index: int, k: nat): int
    requires k < |t.offsets|
  {
    if pass == 0 then index + t.offsets[k] else index - t.offsets[k]
  }

  /** The index the pass writes when its loops stand at cell c. */
  function ScanCell(d: Dims, pass: nat, c: Cell): (i: nat)
    requires InGrid(d, c)
    ensures i < Size(d)
  {
    ScanIndex(d, pass, Index(d, c))
  }

  /** Entries from .. 12 read inside the vectors at this index. */
  predicate ReadsInside(d: Dims, t: Table, pass: nat, index: int, from: nat) {
    |t.offsets| == MaxK
    && forall k :: from <= k < MaxK ==> 0 <= Neighbour(t, pass, index, k) < Size(d)
  }

  /** The k loop at one cell, from entry k on, with the locals at cur. The
      bound distances_[new_index] + diag[k] decides; the value kept is the
      exact distance of the adopted owner, and an unowned cell adopts whatever
      the neighbour holds, -1 included. */
  function Relax(d: Dims, dist: DistanceFn, t: Table, f: Field, pass: nat, index: nat, k: nat, cur: Choice): (r: Choice)
    requires Shaped(f, d) && k <= MaxK && |t.diag| == MaxK && ReadsInside(d, t, pass, index, k)
    ensures r.pindex == cur.pindex || r.pindex in f.pindices
    decreases MaxK - k
  {
    if k == MaxK then cur
    else
      var ni := Neighbour(t, pass, index, k);
      var newD := f.distances[ni] + t.diag[k];
      var next := if cur.pindex == -1 || newD < cur.dist
                  then Choice(dist(f.pindices[ni], index), f.pindices[ni])
                  else cur;
      Relax(d, dist, t, f, pass, index, k + 1, next)
  }

  /** Every read the pass makes at cell c is inside the vectors and on the
      already-visited side of the cell: at or before it going up, at or after
      it going down. */
  lemma {:induction false} ReadsAtCell(d: Dims, t: Table, pass: nat, c: Cell)
    requires SweepSafe(d) && IsTable(d, t) && InGrid(d, c)
    ensures ReadsInside(d, t, pass, ScanCell(d, pass, c), MinK(c))
    ensures forall k :: MinK(c) <= k < MaxK ==>
      if pass == 0 then Neighbour(t, pass, ScanCell(d, pass, c), k) <= ScanCell(d, pass, c)
      else Neighbour(t, pass, ScanCell(d, pass, c), k) >= ScanCell(d, pass, c)
  {
    forall k | MinK(c) <= k < MaxK
      ensures 0 <= Neighbour(t, pass, ScanCell(d, pass, c), k) < Size(d)
      ensures if pass == 0 then Neighbour(t, pass, ScanCell(d, pass, c), k) <= ScanCell(d, pass, c)
              else Neighbour(t, pass, ScanCell(d, pass, c), k) >= ScanCell(d, pass, c)
    {
      NeighbourBehind(d, c, k);
    }
  }

  /** One step of the x loop: relax the cell and store dist and pindex. */
  function VisitCell(d: Dims, dist: DistanceFn, t: Table, f: Field, pass: nat, c: Cell): (g: Field)
    requires SweepSafe(d) && IsTable(d, t) && InGrid(d, c) && Shaped(f, d)
    ensures Shaped(g, d)
  {
    var index := ScanCell(d, pass, c);
    ReadsAtCell(d, t, pass, c);
    var r := Relax(d, dist, t, f, pass, index, MinK(c), Choice(f.distances[index], f.pindices[index]));
    Field(f.distances[index := r.dist], f.pindices[index := r.pindex])
  }

  /** A state of the z, y, x loops: at a cell, or just past a row (x == xdim),
      a plane (y == ydim, x == 0) or the whole grid (z == zdim). */
  predicate LoopPoint(d: Dims, z: nat, y: nat, x: nat) {
    z <= d.zdim && y <= d.ydim && x <= d.xdim
    && (z == d.zdim ==> y == 0 && x == 0)
    && (y == d.ydim ==> x == 0)
  }

  /** The body of the x loop, applied to the vectors at one cell. */
  type Step = (Field, Cell) --> Field

  /** step applies at every cell of the grid and keeps the vectors' length. */
  ghost predicate Steps(d: Dims, step: Step) {
    forall f, c :: Shaped(f, d) && InGrid(d, c) ==> step.requires(f, c) && Shaped(step(f, c), d)
  }

  /** The z, y and x loops of a pass with body step: the vectors when the
      loops reach (z, y, x), starting from f0. */
  function Loops(d: Dims, step: Step, f0: Field, z: nat, y: nat, x: nat): (f: Field)
    requires Steps(d, step) && Shaped(f0, d) && LoopPoint(d, z, y, x)
    ensures Shaped(f, d)
    decreases z, y, x
  {
    if x > 0 then step(Loops(d, step, f0, z, y, x - 1), Cell(x - 1, y, z))
    else if y > 0 then Loops(d, step, f0, z, y - 1, d.xdim)
    else if z > 0 then Loops(d, step, f0, z - 1, d.ydim, 0)
    else f0
  }

  /** The x-loop body of one pass of sweep. */
  function Visitor(d: Dims, dist: DistanceFn, t: Table, pass: nat): (step: Step)
    requires SweepSafe(d) && IsTable(d, t)
    ensures Steps(d, step)
  {
    (f: Field, c: Cell) requires Shaped(f, d) && InGrid(d, c) => VisitCell(d, dist, t, f, pass, c)
  }

  /** step does what VisitCell does; the link is used only where a visit
      of VisitCell is already in view. */
  ghost predicate Visits(d: Dims, dist: DistanceFn, t: Table, pass: nat, step: Step)
    requires SweepSafe(d) && IsTable(d, t)
  {
    Steps(d, step)
    && forall f, c {:trigger VisitCell(d, dist, t, f, pass, c)} :: Shaped(f, d) && InGrid(d, c) ==>
         step(f, c) == VisitCell(d, dist, t, f, pass, c)
  }

  /** The x-loop body of a pass does what VisitCell does. */
  lemma VisitorVisits(d: Dims, dist: DistanceFn, t: Table, pass: nat)
    requires SweepSafe(d) && IsTable(d, t)
    ensures Visits(d, dist, t, pass, Visitor(d, dist, t, pass))
  {
  }

  /** The vectors when the loops of one pass reach (z, y, x), starting from f0. */
  function PassBefore(d: Dims, dist: DistanceFn, t: Table, f0: Field, pass: nat, z: nat, y: nat, x: nat): (f: Field)
    requires SweepSafe(d) && IsTable(d, t) && Shaped(f0, d) && LoopPoint(d, z, y, x)
    ensures Shaped(f, d)
  {
    Loops(d, Visitor(d, dist, t, pass), f0, z, y, x)
  }

  /** A whole pass: pass 0 upwards, pass 1 downwards. */
  function Pass(d: Dims, dist: DistanceFn, t: Table, f0: Field, pass: nat): (f: Field)
    requires SweepSafe(d) && IsTable(d, t) && Shaped(f0, d)
    ensures Shaped(f, d)
  {
    PassBefore(d, dist, t, f0, pass, d.zdim, 0, 0)
  }

  /** What sweep leaves in the vectors: pass 0, then pass 1, with the
      grid's stencil tables. */
  function Swept(d: Dims, dist: DistanceFn, f0: Field): (f: Field)
    requires SweepSafe(d) && Shaped(f0, d)
    ensures Shaped(f, d)
  {
    var t := StencilTable(d);
    Pass(d, dist, t, Pass(d, dist, t, f0, 0), 1)
  }

  /** What the constructor leaves in distances_ and pindices_. */
  function Build(d: Dims, dist: DistanceFn, seeds: seq<Cell>): (f: Field)
    requires SweepSafe(d)
    ensures Shaped(f, d)
  {
    Swept(d, dist, Seeded(d, dist, seeds, |seeds|))
  }

  // ---------------------------------------------------------------- radii

  /** radii[pindex & rmask], with rmask 0 for one shared radius and -1 (all
      bits) otherwise. A read outside radii is undefined in the source; it
      only happens for owner -1, and stray stands for whatever it yields. */
  function RadiusAt(radii: seq<real>, stray: real, p: int): (r: real)
    ensures |radii| == 1 ==> r == radii[0]
    ensures |radii| != 1 && 0 <= p < |radii| ==> r == radii[p]
    ensures |radii| != 1 && !(0 <= p < |radii|) ==> r == stray
  {
    var j := if |radii| == 1 then 0 else p;
    if 0 <= j < |radii| then radii[j] else stray
  }

  /** The constructor's distance lambda: the Euclidean length from seed p's
      centre to the cell (given by the caller as len) minus the seed's radius. */
  function SphereDistance(len: DistanceFn, radii: seq<real>, stray: real): DistanceFn {
    (p: int, i: nat) => len(p, i) - RadiusAt(radii, stray, p)
  }
}
